/** Rewriting the links of a page: the destinations found in its syntax tree are
    replaced from the last to the first. */
module LinkSplice {
  import opened Text
  import opened Wrappers
  import opened LinkDestination
  import opened Sorting

  datatype Replacement = Replacement(start: nat, end: nat, value: string)

  // ----- replacing everything at once

  /** No two replacements begin together or share a character of the source. */
  predicate Compatible(a: Replacement, b: Replacement) {
    a.start != b.start && (a.end <= b.start || b.end <= a.start)
  }

  ghost predicate Apart(source: string, rs: seq<Replacement>) {
    && (forall r | r in rs :: r.start <= r.end <= |source|)
    && forall i, j :: 0 <= i < j < |rs| ==> Compatible(rs[i], rs[j])
  }

  ghost predicate Covered(rs: set<Replacement>, i: nat) {
    exists r :: r in rs && r.start <= i < r.end
  }

  ghost predicate Begins(rs: set<Replacement>, i: nat) {
    exists r :: r in rs && r.start == i
  }

  ghost function Inserted(rs: set<Replacement>, i: nat): string {
    if Begins(rs, i) then var r :| r in rs && r.start == i; r.value else ""
  }

  /** What one position of the source becomes: the value of the replacement that
      begins there, and its own character unless some replacement covers it. */
  ghost function Emitted(source: string, rs: set<Replacement>, i: nat): string {
    Inserted(rs, i) + if i < |source| && !Covered(rs, i) then [source[i]] else ""
  }

  /** Every position from `from` on, rewritten independently of all the others. */
  ghost function Rewritten(source: string, rs: set<Replacement>, from: nat): string
    decreases |source| + 1 - from
  {
    if from > |source| then "" else Emitted(source, rs, from) + Rewritten(source, rs, from + 1)
  }

  ghost predicate DistinctStarts(rs: set<Replacement>) {
    forall a, b :: a in rs && b in rs && a.start == b.start ==> a == b
  }

  function Members(rs: seq<Replacement>): set<Replacement> {
    set r | r in rs
  }

  // ----- splicing one by one

  /** Where nothing begins and nothing is covered, the source is kept. */
  lemma {:induction false} KeptBefore(source: string, rs: set<Replacement>, from: nat, until: nat)
    requires from <= until <= |source| && (forall r | r in rs :: until <= r.start)
    ensures Rewritten(source, rs, from) == source[from..until] + Rewritten(source, rs, until)
    decreases until - from
  {
    if from < until {
      KeptBefore(source, rs, from + 1, until);
      KeptFirst(source, rs, from, until, Rewritten(source, rs, until));
    } else {
      assert source[from..until] == "";
    }
  }

  lemma KeptFirst(source: string, rs: set<Replacement>, from: nat, until: nat, tail: string)
    requires from < until <= |source| && (forall r | r in rs :: until <= r.start)
    requires Rewritten(source, rs, from + 1) == source[from + 1..until] + tail
    ensures Rewritten(source, rs, from) == source[from..until] + tail
  {
    hide Emitted;
    KeptAt(source, rs, from);
    JoinFirst(source, from, until, tail);
  }

  lemma JoinFirst(source: string, from: nat, until: nat, tail: string)
    requires from < until <= |source|
    ensures [source[from]] + (source[from + 1..until] + tail) == source[from..until] + tail
  {
    assert source[from..until] == [source[from]] + source[from + 1..until];
  }

  lemma KeptAt(source: string, rs: set<Replacement>, i: nat)
    requires i < |source| && (forall r | r in rs :: i < r.start)
    ensures Emitted(source, rs, i) == [source[i]]
  {
  }

  /** The rest of the range just replaced disappears. */
  lemma {:induction false} CoveredGoes(source: string, rest: set<Replacement>, r: Replacement, from: nat)
    requires r.start < from <= r.end <= |source| && (forall q | q in rest :: r.end <= q.start)
    ensures Rewritten(source, rest + {r}, from) == Rewritten(source, rest + {r}, r.end)
    decreases r.end - from
  {
    if from < r.end {
      CoveredGoes(source, rest, r, from + 1);
      assert r in rest + {r};
      assert Emitted(source, rest + {r}, from) == "";
    }
  }

  /** Beyond a replacement it no longer matters. */
  lemma {:induction false} PastIsUnchanged(source: string, rest: set<Replacement>, r: Replacement, from: nat)
    requires r.start < from && r.end <= from && DistinctStarts(rest)
    ensures Rewritten(source, rest + {r}, from) == Rewritten(source, rest, from)
    decreases |source| + 1 - from
  {
    hide Emitted;
    if from <= |source| {
      PastIsUnchanged(source, rest, r, from + 1);
      SameEmitted(source, rest, r, from);
    }
  }

  lemma SameEmitted(source: string, rest: set<Replacement>, r: Replacement, i: nat)
    requires r.start < i && r.end <= i && DistinctStarts(rest)
    ensures Emitted(source, rest + {r}, i) == Emitted(source, rest, i)
  {
    var rs := rest + {r};
    assert forall q :: q in rest ==> q in rs;
    assert forall q :: q in rs && q != r ==> q in rest;
    if Begins(rest, i) {
      var q :| q in rest && q.start == i;
      assert q in rs && forall p :: p in rs && p.start == i ==> p in rest;
      assert Inserted(rs, i) == q.value == Inserted(rest, i);
    }
    assert Covered(rs, i) == Covered(rest, i);
  }

  lemma OneBegins(rest: set<Replacement>, r: Replacement)
    requires forall q | q in rest :: r.start < q.start
    ensures Inserted(rest + {r}, r.start) == r.value
  {
    assert r in rest + {r};
    assert forall q :: q in rest + {r} && q.start == r.start ==> q == r;
  }

  /** One more replacement, before all the others. */
  lemma SpliceOne(source: string, rest: set<Replacement>, r: Replacement, cut: nat)
    requires r.start <= r.end <= cut <= |source| && (forall q | q in rest :: cut <= q.start && r.start < q.start)
    requires DistinctStarts(rest)
    ensures Rewritten(source, rest + {r}, r.start) == r.value + source[r.end..cut] + Rewritten(source, rest, cut)
  {
    hide Rewritten;
    KeptBefore(source, rest, r.end, cut);
    OneBegins(rest, r);
    if r.start < r.end { SpliceLong(source, rest, r); } else { SpliceEmpty(source, rest, r); }
    var kept, later := source[r.end..cut], Rewritten(source, rest, cut);
    assert r.value + (kept + later) == r.value + kept + later;
  }

  lemma SpliceLong(source: string, rest: set<Replacement>, r: Replacement)
    requires r.start < r.end <= |source| && (forall q | q in rest :: r.end <= q.start)
    requires DistinctStarts(rest)
    ensures Rewritten(source, rest + {r}, r.start) == r.value + Rewritten(source, rest, r.end)
  {
    hide Emitted, DistinctStarts;
    AtStart(source, rest, r);
    OneBegins(rest, r);
    CoveredGoes(source, rest, r, r.start + 1);
    PastIsUnchanged(source, rest, r, r.end);
  }

  lemma SpliceEmpty(source: string, rest: set<Replacement>, r: Replacement)
    requires r.start == r.end <= |source| && (forall q | q in rest :: r.start < q.start)
    requires DistinctStarts(rest)
    ensures Rewritten(source, rest + {r}, r.start) == r.value + Rewritten(source, rest, r.end)
  {
    hide Emitted, DistinctStarts;
    EmptyAtStart(source, rest, r);
    OneBegins(rest, r);
    PastIsUnchanged(source, rest, r, r.end + 1);
    var here, later := Emitted(source, rest, r.end), Rewritten(source, rest, r.end + 1);
    assert (r.value + here) + later == r.value + (here + later);
  }

  lemma AtStart(source: string, rest: set<Replacement>, r: Replacement)
    requires r.start < r.end <= |source| && (forall q | q in rest :: r.start < q.start)
    ensures Emitted(source, rest + {r}, r.start) == r.value
  {
    OneBegins(rest, r);
    assert r in rest + {r};
    assert Covered(rest + {r}, r.start);
  }

  lemma EmptyAtStart(source: string, rest: set<Replacement>, r: Replacement)
    requires r.start == r.end <= |source| && (forall q | q in rest :: r.start < q.start)
    ensures Emitted(source, rest + {r}, r.start) == r.value + Emitted(source, rest, r.start)
  {
    OneBegins(rest, r);
    assert !Begins(rest, r.start) && !Covered(rest, r.start);
    assert forall q :: q in rest + {r} ==> q == r || q in rest;
    assert !Covered(rest + {r}, r.start);
  }

  function ByStart(): (Replacement, Replacement) -> int {
    (a: Replacement, b: Replacement) => b.start - a.start
  }

  ghost predicate Descending(rs: seq<Replacement>) {
    forall i, j :: 0 <= i < j < |rs| ==> rs[j].start <= rs[i].start
  }

  /** `slice(from)`: nothing is left beyond the end. */
  function SliceFrom(s: string, from: nat): string {
    if from <= |s| then s[from..] else ""
  }

  function SliceTo(s: string, to: nat): string {
    if to <= |s| then s[..to] else s
  }

  /** Sorting keeps replacements apart. */
  lemma ApartWhenSorted(source: string, rs: seq<Replacement>, sorted: seq<Replacement>, order: seq<nat>)
    requires Apart(source, rs) && Orders(rs, ByStart(), order, |rs|)
    requires |sorted| == |rs| && forall i :: 0 <= i < |rs| ==> sorted[i] == rs[order[i]]
    ensures Apart(source, sorted) && Members(sorted) == Members(rs) && Descending(sorted)
  {
    forall i, j | 0 <= i < j < |sorted| ensures Compatible(sorted[i], sorted[j]) && sorted[j].start <= sorted[i].start {
      assert InOrder(rs, ByStart(), order[i], order[j]);
      assert order[i] < order[j] ==> Compatible(rs[order[i]], rs[order[j]]);
      assert order[j] < order[i] ==> Compatible(rs[order[j]], rs[order[i]]);
    }
    SortedMembers(rs, ByStart(), order, sorted);
  }

  /** Splicing from the last replacement to the first is replacing them all at once. */
  method Splice(source: string, replacements: seq<Replacement>) returns (projected: string)
    ensures Apart(source, replacements) ==> projected == Rewritten(source, Members(replacements), 0)
  {
    hide Rewritten, Apart, Descending, AllBefore, AllAfter, Members;
    projected := source;
    var sorted, order := StableSort(replacements, ByStart());
    ghost var apart := Apart(source, replacements);
    if apart { ApartWhenSorted(source, replacements, sorted, order); }
    ghost var cut: nat := |source|;
    StartOfSplice(source, sorted);
    for i := 0 to |sorted|
      invariant cut <= |source|
      invariant apart ==> AllBefore(sorted[i..], cut) && AllAfter(sorted[..i], cut)
      invariant apart ==> projected == source[..cut] + Rewritten(source, Members(sorted[..i]), cut)
    {
      var r := sorted[i];
      projected := SliceTo(projected, r.start) + r.value + SliceFrom(projected, r.end);
      if apart {
        SpliceStep(source, sorted, i, cut);
        SlicesAround(source, cut, Rewritten(source, Members(sorted[..i]), cut), r);
        cut := r.start;
      }
    }
    assert sorted[..|sorted|] == sorted;
    if apart { EndOfSplice(source, sorted, cut); }
  }

  lemma StartOfSplice(source: string, sorted: seq<Replacement>)
    ensures sorted[..0] == [] && source == source[..|source|] + Rewritten(source, Members([]), |source|)
    ensures AllAfter([], |source|) && (Apart(source, sorted) ==> AllBefore(sorted[0..], |source|))
  {
    assert Members([]) == {};
    assert sorted[0..] == sorted;
  }

  lemma EndOfSplice(source: string, sorted: seq<Replacement>, cut: nat)
    requires AllAfter(sorted, cut) && cut <= |source|
    ensures Rewritten(source, Members(sorted), 0) == source[..cut] + Rewritten(source, Members(sorted), cut)
  {
    KeptBefore(source, Members(sorted), 0, cut);
    assert source[0..cut] == source[..cut];
  }

  /** Around a replacement before the cut only the source is seen. */
  lemma SlicesAround(source: string, cut: nat, tail: string, r: Replacement)
    requires r.start <= r.end <= cut <= |source|
    ensures SliceTo(source[..cut] + tail, r.start) + r.value + SliceFrom(source[..cut] + tail, r.end)
         == source[..r.start] + (r.value + source[r.end..cut] + tail)
  {
    var s := source[..cut] + tail;
    assert s[..r.start] == source[..r.start] && s[r.end..] == source[r.end..cut] + tail;
  }

  ghost predicate AllBefore(rs: seq<Replacement>, cut: nat) {
    forall r | r in rs :: r.end <= cut
  }

  ghost predicate AllAfter(rs: seq<Replacement>, cut: nat) {
    forall r | r in rs :: cut <= r.start
  }

  lemma ApartStarts(source: string, rs: seq<Replacement>, n: nat)
    requires Apart(source, rs) && n <= |rs|
    ensures DistinctStarts(Members(rs[..n]))
  {
    forall a, b | a in rs[..n] && b in rs[..n] && a.start == b.start ensures a == b {
      var i :| 0 <= i < n && rs[i] == a;
      var j :| 0 <= j < n && rs[j] == b;
      assert i != j ==> Compatible(a, b) || Compatible(b, a);
    }
  }

  lemma SpliceStep(source: string, sorted: seq<Replacement>, i: nat, cut: nat)
    requires Apart(source, sorted) && Descending(sorted) && i < |sorted| && cut <= |source|
    requires AllBefore(sorted[i..], cut) && AllAfter(sorted[..i], cut)
    ensures AllBefore(sorted[i + 1..], sorted[i].start) && AllAfter(sorted[..i + 1], sorted[i].start)
    ensures sorted[i].start <= sorted[i].end <= cut
    ensures var r := sorted[i];
            Rewritten(source, Members(sorted[..i + 1]), r.start)
              == r.value + source[r.end..cut] + Rewritten(source, Members(sorted[..i]), cut)
  {
    hide Rewritten;
    var r := sorted[i];
    assert sorted[i..][0] == r;
    forall q | q in sorted[..i] ensures r.start < q.start {
      var k :| 0 <= k < i && sorted[k] == q;
      assert Compatible(sorted[k], sorted[i]);
    }
    forall q | q in sorted[i + 1..] ensures q.end <= r.start {
      var k :| i < k < |sorted| && sorted[k] == q;
      assert Compatible(sorted[i], sorted[k]);
    }
    assert sorted[..i + 1] == sorted[..i] + [r];
    assert Members(sorted[..i + 1]) == Members(sorted[..i]) + {r};
    ApartStarts(source, sorted, i);
    SpliceOne(source, Members(sorted[..i]), r, cut);
  }

  // ----- the syntax tree

  /** A node of the parsed page, with its span of the source. `next` is the address a
      link, image or definition is to have instead, when it is rewritten at all. */
  datatype Node = Node(kind: Kind, start: nat, end: nat, next: Option<string>, children: seq<Node>)

  datatype Collected = Collected(rs: seq<Replacement>) | Failed(why: Located)

  function Then(a: Collected, b: Collected): Collected {
    if a.Failed? then a else if b.Failed? then b else Collected(a.rs + b.rs)
  }

  /** `slice(start, end)` of a span inside the source. */
  function Raw(source: string, n: Node): string {
    if n.start <= n.end <= |source| then source[n.start..n.end] else ""
  }

  function OwnReplacement(source: string, n: Node): Collected {
    if n.next.None? then Collected([])
    else
      var located := DestinationOf(Raw(source, n), n.kind);
      if located.Range? then Collected([Replacement(n.start + located.start, n.start + located.end, n.next.value)])
      else Failed(located)
  }

  /** What the visit gathers: a node's own replacement, then those of its children. */
  function Gather(source: string, n: Node): Collected
    decreases n
  {
    Then(OwnReplacement(source, n), GatherAll(source, n.children))
  }

  function GatherAll(source: string, nodes: seq<Node>): Collected
    decreases nodes
  {
    if nodes == [] then Collected([]) else Then(Gather(source, nodes[0]), GatherAll(source, nodes[1..]))
  }

  /** How far the children of a node reach: to the end of its label when it is rewritten. */
  function ChildrenEnd(source: string, n: Node): (end: int) {
    if n.next.None? then n.end
    else
      var label' := LabelEndOf(Raw(source, n));
      if label'.None? then n.start else n.start + label'.value
  }

  /** Spans nest as in any parsed page, and siblings follow one another. */
  ghost predicate WellPlaced(source: string, n: Node)
    decreases n
  {
    n.start <= n.end <= |source| && AllPlaced(source, n.children, n.start, ChildrenEnd(source, n))
  }

  ghost predicate AllPlaced(source: string, nodes: seq<Node>, from: int, end: int)
    decreases nodes
  {
    nodes != [] ==>
      && from <= nodes[0].start && nodes[0].end <= end
      && WellPlaced(source, nodes[0])
      && AllPlaced(source, nodes[1..], nodes[0].end, end)
  }

  /** All strictly after `from`, none beyond `end`. */
  ghost predicate Between(rs: seq<Replacement>, from: int, end: int) {
    forall r | r in rs :: from < r.start <= r.end <= end
  }

  lemma RangeAfterLabel(raw: string, kind: Kind)
    requires DestinationOf(raw, kind).Range?
    ensures var located := DestinationOf(raw, kind);
            LabelEndOf(raw).Some? && LabelEndOf(raw).value < located.start <= located.end <= |raw|
  {
    hide Scan, IndexOf, AfterSpaces;
  }

  lemma OwnAfterChildren(source: string, n: Node)
    requires n.start <= n.end <= |source| && OwnReplacement(source, n).Collected?
    ensures var own := OwnReplacement(source, n).rs;
            Apart(source, own) && Between(own, n.start, n.end) && Between(own, ChildrenEnd(source, n), n.end)
  {
    hide DestinationOf, LabelEndOf;
    if n.next.Some? { RangeAfterLabel(Raw(source, n), n.kind); }
  }

  lemma ApartTogether(source: string, a: seq<Replacement>, b: seq<Replacement>, from: int, mid: int, end: int)
    requires Apart(source, a) && Apart(source, b) && from <= mid <= end
    requires (Between(a, from, mid) && Between(b, mid, end)) || (Between(b, from, mid) && Between(a, mid, end))
    ensures Apart(source, a + b) && Between(a + b, from, end)
  {
    var rs := a + b;
    forall i, j | 0 <= i < j < |rs| ensures Compatible(rs[i], rs[j]) {
      assert i < |a| ==> a[i] in a;
      assert j >= |a| ==> b[j - |a|] in b;
    }
  }

  /** Whatever is gathered from a well placed tree can be replaced at once, links
      around images included. */
  lemma {:induction false} GatheredApart(source: string, n: Node)
    requires WellPlaced(source, n) && Gather(source, n).Collected?
    ensures Apart(source, Gather(source, n).rs) && Between(Gather(source, n).rs, n.start, n.end)
    decreases n
  {
    hide Apart, Between, OwnReplacement, ChildrenEnd;
    var end := ChildrenEnd(source, n);
    OwnAfterChildren(source, n);
    ChildrenEndInside(source, n);
    AllGatheredApart(source, n.children, n.start, end);
    ApartTogether(source, OwnReplacement(source, n).rs, GatherAll(source, n.children).rs, n.start, end, n.end);
  }

  lemma ChildrenEndInside(source: string, n: Node)
    requires n.start <= n.end <= |source|
    ensures n.start <= ChildrenEnd(source, n) <= n.end
  {
  }

  lemma {:induction false} AllGatheredApart(source: string, nodes: seq<Node>, from: int, end: int)
    requires AllPlaced(source, nodes, from, end) && GatherAll(source, nodes).Collected? && from <= end
    ensures Apart(source, GatherAll(source, nodes).rs) && Between(GatherAll(source, nodes).rs, from, end)
    decreases nodes
  {
    if nodes != [] {
      hide Apart, Between, ChildrenEnd;
      var first, rest := Gather(source, nodes[0]).rs, GatherAll(source, nodes[1..]).rs;
      GatheredApart(source, nodes[0]);
      AllGatheredApart(source, nodes[1..], nodes[0].end, end);
      StartsLater(first, nodes[0].start, from, nodes[0].end);
      ApartTogether(source, first, rest, from, nodes[0].end, end);
    }
  }

  lemma StartsLater(rs: seq<Replacement>, from: int, earlier: int, end: int)
    requires Between(rs, from, end) && earlier <= from
    ensures Between(rs, earlier, end)
  {
  }

  lemma SliceOfSlice(s: string, start: nat, end: nat, a: nat, b: nat)
    requires start <= end <= |s| && a <= b <= end - start
    ensures s[start..end][a..b] == s[start + a..start + b]
  {
    var inner := s[start..end];
    forall k | a <= k < b ensures inner[k] == s[start + k] {}
    assert inner[a..b] == s[start + a..start + b];
  }

  /** An inline link or image has exactly its destination replaced: what precedes it
      and what it says are kept. */
  lemma OwnReplacesDestination(source: string, n: Node, before: string, text: seq<Piece>, spaces: string,
        d: Destination, tail: string)
    requires n.start <= n.end <= |source| && n.next.Some? && !n.kind.Definition?
    requires '[' !in before && Balanced(LABEL, text, true) && AllSpaces(spaces) && WellWritten(d, tail)
    requires source[n.start..n.end] == before + "[" + Render(LABEL, text) + "](" + spaces + Written(d) + tail
    ensures var own := OwnReplacement(source, n);
            && own.Collected? && |own.rs| == 1 && own.rs[0].value == n.next.value
            && n.start <= own.rs[0].start <= own.rs[0].end <= n.end
            && source[n.start..own.rs[0].start]
               == before + "[" + Render(LABEL, text) + "](" + spaces + (if d.Angle? then "<" else "")
            && source[own.rs[0].start..own.rs[0].end] == Shown(d)
  {
    hide Written, Render, Shown, Balanced, WellWritten, DestinationOf;
    var raw := source[n.start..n.end];
    var open := before + "[" + Render(LABEL, text) + "](";
    assert raw == open + spaces + Written(d) + tail;
    InlineDestinationFound(before, text, spaces, d, tail, n.kind);
    var at := DestinationOf(raw, n.kind);
    SliceOfSlice(source, n.start, n.end, 0, at.start);
    SliceOfSlice(source, n.start, n.end, at.start, at.end);
  }

  // ----- what is gathered, node by node

  /** Which child to take at each level, from the root down. */
  type Path = seq<nat>

  predicate HasPath(n: Node, path: Path)
    decreases |path|
  {
    path == [] || (path[0] < |n.children| && HasPath(n.children[path[0]], path[1..]))
  }

  function At(n: Node, path: Path): Node
    requires HasPath(n, path)
    decreases |path|
  {
    if path == [] then n else At(n.children[path[0]], path[1..])
  }

  /** A node comes before its children, and a child before its later siblings. */
  predicate Precedes(a: Path, b: Path)
    decreases |a|
  {
    b != [] && (a == [] || a[0] < b[0] || (a[0] == b[0] && Precedes(a[1..], b[1..])))
  }

  ghost predicate InDocumentOrder(places: seq<Path>) {
    forall i, j :: 0 <= i < j < |places| ==> Precedes(places[i], places[j])
  }

  /** The nodes with another address to have, once each and in the order of the document. */
  ghost predicate AreRewritable(n: Node, places: seq<Path>) {
    && InDocumentOrder(places)
    && (forall i :: 0 <= i < |places| ==> HasPath(n, places[i]) && At(n, places[i]).next.Some?)
    && (forall path :: HasPath(n, path) && At(n, path).next.Some? ==> path in places)
  }

  /** Each replacement is that of the node at the same place in the list. */
  ghost predicate ReplaceAt(source: string, n: Node, places: seq<Path>, rs: seq<Replacement>) {
    && |rs| == |places|
    && forall i :: 0 <= i < |rs| ==>
      HasPath(n, places[i]) && OwnReplacement(source, At(n, places[i])) == Collected([rs[i]])
  }

  /** The first node, in the order of the document, whose destination is not found. */
  ghost predicate FailsFirst(source: string, n: Node, path: Path, why: Located) {
    && HasPath(n, path) && OwnReplacement(source, At(n, path)) == Failed(why)
    && forall other :: HasPath(n, other) && Precedes(other, path) ==>
      OwnReplacement(source, At(n, other)).Collected?
  }

  /** The same in the subtrees from the `from`-th child on. */
  function Under(k: nat, places: seq<Path>): (under: seq<Path>)
    ensures |under| == |places| && forall i :: 0 <= i < |places| ==> under[i] == [k] + places[i]
  {
    seq(|places|, i requires 0 <= i < |places| => [k] + places[i])
  }

  function Places(n: Node): seq<Path>
    decreases n
  {
    (if n.next.Some? then [[]] else []) + PlacesFrom(n.children, 0)
  }

  function PlacesFrom(nodes: seq<Node>, from: nat): seq<Path>
    decreases nodes
  {
    if nodes == [] then [] else Under(from, Places(nodes[0])) + PlacesFrom(nodes[1..], from + 1)
  }

  ghost predicate ForestHas(nodes: seq<Node>, from: nat, path: Path) {
    path != [] && from <= path[0] < from + |nodes| && HasPath(nodes[path[0] - from], path[1..])
  }

  ghost function ForestAt(nodes: seq<Node>, from: nat, path: Path): Node
    requires ForestHas(nodes, from, path)
  {
    At(nodes[path[0] - from], path[1..])
  }

  lemma {:induction false} PlacesAreRewritable(n: Node)
    ensures AreRewritable(n, Places(n))
    decreases n
  {
    var below := PlacesFrom(n.children, 0);
    ForestIsRewritable(n.children, 0);
    var own: seq<Path> := if n.next.Some? then [[]] else [];
    assert Places(n) == own + below;
    forall path | HasPath(n, path) && At(n, path).next.Some? ensures path in Places(n) {
      if path != [] {
        assert ForestHas(n.children, 0, path) && ForestAt(n.children, 0, path) == At(n, path);
      } else {
        assert own[0] in own;
      }
    }
    forall i | 0 <= i < |below| ensures HasPath(n, below[i]) && At(n, below[i]).next.Some? {
      assert ForestHas(n.children, 0, below[i]) && ForestAt(n.children, 0, below[i]) == At(n, below[i]);
    }
  }

  ghost predicate ForestRewritable(nodes: seq<Node>, from: nat, places: seq<Path>) {
    && InDocumentOrder(places)
    && (forall i :: 0 <= i < |places| ==>
          ForestHas(nodes, from, places[i]) && ForestAt(nodes, from, places[i]).next.Some?)
    && (forall path :: ForestHas(nodes, from, path) && ForestAt(nodes, from, path).next.Some? ==> path in places)
  }

  lemma {:induction false} ForestIsRewritable(nodes: seq<Node>, from: nat)
    ensures ForestRewritable(nodes, from, PlacesFrom(nodes, from))
    decreases nodes
  {
    if nodes != [] {
      PlacesAreRewritable(nodes[0]);
      ForestIsRewritable(nodes[1..], from + 1);
      ForestJoins(nodes, from, Places(nodes[0]), PlacesFrom(nodes[1..], from + 1));
    }
  }

  lemma ForestJoins(nodes: seq<Node>, from: nat, first: seq<Path>, rest: seq<Path>)
    requires nodes != [] && AreRewritable(nodes[0], first) && ForestRewritable(nodes[1..], from + 1, rest)
    ensures ForestRewritable(nodes, from, Under(from, first) + rest)
  {
    var under := Under(from, first);
    var all := under + rest;
    forall i, j | 0 <= i < j < |all| ensures Precedes(all[i], all[j]) {
      if j < |under| {
        assert under[i][1..] == first[i] && under[j][1..] == first[j];
      } else if i < |under| {
        assert ForestHas(nodes[1..], from + 1, rest[j - |under|]);
      }
    }
    forall i | 0 <= i < |all| ensures ForestHas(nodes, from, all[i]) && ForestAt(nodes, from, all[i]).next.Some? {
      if i < |under| {
        assert under[i][1..] == first[i];
      } else {
        assert ForestHas(nodes[1..], from + 1, rest[i - |under|]);
      }
    }
    forall path | ForestHas(nodes, from, path) && ForestAt(nodes, from, path).next.Some? ensures path in all {
      if path[0] == from {
        assert path[1..] in first;
        var i :| 0 <= i < |first| && first[i] == path[1..];
        assert path == [from] + path[1..] == under[i];
      } else {
        assert ForestHas(nodes[1..], from + 1, path);
        assert ForestAt(nodes[1..], from + 1, path) == ForestAt(nodes, from, path);
      }
    }
  }

  lemma {:induction false} GatheredAtPlaces(source: string, n: Node)
    requires Gather(source, n).Collected?
    ensures ReplaceAt(source, n, Places(n), Gather(source, n).rs)
    decreases n
  {
    hide DestinationOf;
    ForestGathered(source, n.children, 0);
    var below, rs := PlacesFrom(n.children, 0), GatherAll(source, n.children).rs;
    forall i | 0 <= i < |below|
      ensures HasPath(n, below[i]) && OwnReplacement(source, At(n, below[i])) == Collected([rs[i]])
    {
      assert ForestHas(n.children, 0, below[i]) && ForestAt(n.children, 0, below[i]) == At(n, below[i]);
    }
  }

  lemma {:induction false} ForestGathered(source: string, nodes: seq<Node>, from: nat)
    requires GatherAll(source, nodes).Collected?
    ensures var places, rs := PlacesFrom(nodes, from), GatherAll(source, nodes).rs;
            |rs| == |places| && forall i :: 0 <= i < |rs| ==>
              ForestHas(nodes, from, places[i])
              && OwnReplacement(source, ForestAt(nodes, from, places[i])) == Collected([rs[i]])
    decreases nodes
  {
    hide OwnReplacement;
    if nodes != [] {
      GatheredAtPlaces(source, nodes[0]);
      ForestGathered(source, nodes[1..], from + 1);
      var first, rest := Places(nodes[0]), PlacesFrom(nodes[1..], from + 1);
      var places, rs := PlacesFrom(nodes, from), GatherAll(source, nodes).rs;
      forall i | 0 <= i < |rs|
        ensures ForestHas(nodes, from, places[i])
        ensures OwnReplacement(source, ForestAt(nodes, from, places[i])) == Collected([rs[i]])
      {
        if i < |first| {
          assert places[i] == [from] + first[i] && places[i][1..] == first[i];
        } else {
          assert places[i] == rest[i - |first|];
          assert ForestHas(nodes[1..], from + 1, places[i]);
          assert ForestAt(nodes[1..], from + 1, places[i]) == ForestAt(nodes, from, places[i]);
        }
      }
    }
  }

  lemma {:induction false} AllOwnFound(source: string, n: Node, path: Path)
    requires Gather(source, n).Collected? && HasPath(n, path)
    ensures OwnReplacement(source, At(n, path)).Collected?
    decreases |path|
  {
    hide OwnReplacement;
    if path != [] {
      PartCollected(source, n.children, path[0]);
      AllOwnFound(source, n.children[path[0]], path[1..]);
    }
  }

  lemma {:induction false} PartCollected(source: string, nodes: seq<Node>, k: nat)
    requires GatherAll(source, nodes).Collected? && k < |nodes|
    ensures Gather(source, nodes[k]).Collected?
  {
    hide OwnReplacement;
    if k > 0 { PartCollected(source, nodes[1..], k - 1); }
  }

  /** A failed visit failed at one child, and the children before it did not. */
  lemma {:induction false} ChildFails(source: string, nodes: seq<Node>) returns (k: nat)
    requires GatherAll(source, nodes).Failed?
    ensures k < |nodes| && Gather(source, nodes[k]) == GatherAll(source, nodes)
    ensures forall m :: 0 <= m < k ==> Gather(source, nodes[m]).Collected?
    decreases |nodes|
  {
    hide Gather;
    if Gather(source, nodes[0]).Failed? { return 0; }
    var rest := ChildFails(source, nodes[1..]);
    k := rest + 1;
    assert forall m :: 1 <= m < k ==> nodes[m] == nodes[1..][m - 1];
  }

  lemma {:induction false} FirstFailure(source: string, n: Node) returns (path: Path)
    requires Gather(source, n).Failed?
    ensures FailsFirst(source, n, path, Gather(source, n).why)
    decreases n
  {
    hide DestinationOf;
    if OwnReplacement(source, n).Failed? { return []; }
    var k := ChildFails(source, n.children);
    var below := FirstFailure(source, n.children[k]);
    path := [k] + below;
    assert path[1..] == below;
    forall other | HasPath(n, other) && Precedes(other, path) ensures OwnReplacement(source, At(n, other)).Collected? {
      hide OwnReplacement;
      if other != [] && other[0] < k { AllOwnFound(source, n.children[other[0]], other[1..]); }
    }
  }

  /** All replacements of the tree at once. */
  ghost predicate IsRewrite(source: string, tree: Node, places: seq<Path>, rs: seq<Replacement>, text: string) {
    && AreRewritable(tree, places) && ReplaceAt(source, tree, places, rs)
    && (WellPlaced(source, tree) ==> text == Rewritten(source, Members(rs), 0))
  }

  // ----- rewriting a page

  datatype Projection = Projected(text: string) | Rejected(why: Located)

  class MarkdownRewriter {
    const source: string
    var replacements: seq<Replacement>

    constructor (source: string)
      ensures this.source == source && replacements == []
    {
      this.source := source;
      replacements := [];
    }

    /** Push the node's own replacement; the error thrown otherwise is returned. */
    method Rewrite(n: Node) returns (failure: Option<Located>)
      modifies this
      ensures match OwnReplacement(source, n)
              case Collected(rs) => failure.None? && replacements == old(replacements) + rs
              case Failed(why) => failure == Some(why)
    {
      hide DestinationOf;
      if n.next.None? { return None; }
      var located := DestinationRange(Raw(source, n), n.kind);
      if !located.Range? { return Some(located); }
      replacements := replacements + [Replacement(n.start + located.start, n.start + located.end, n.next.value)];
      return None;
    }

    method Visit(n: Node) returns (failure: Option<Located>)
      modifies this
      ensures match Gather(source, n)
              case Collected(rs) => failure.None? && replacements == old(replacements) + rs
              case Failed(why) => failure == Some(why)
      decreases n
    {
      hide OwnReplacement;
      failure := Rewrite(n);
      if failure.Some? { return; }
      failure := VisitAll(n.children);
    }

    method VisitAll(nodes: seq<Node>) returns (failure: Option<Located>)
      modifies this
      ensures match GatherAll(source, nodes)
              case Collected(rs) => failure.None? && replacements == old(replacements) + rs
              case Failed(why) => failure == Some(why)
      decreases nodes
    {
      hide OwnReplacement;
      if nodes == [] { return None; }
      failure := Visit(nodes[0]);
      if failure.Some? { return; }
      failure := VisitAll(nodes[1..]);
    }
  }

  /** Every destination in the tree is replaced, all at once; nothing else changes. The error
      is that of the first node whose destination is not found. */
  method RewriteMarkdown(source: string, tree: Node) returns (projection: Projection)
    ensures match projection
            case Projected(text) => exists places, rs :: IsRewrite(source, tree, places, rs, text)
            case Rejected(why) => exists path :: FailsFirst(source, tree, path, why)
  {
    hide Gather, WellPlaced, Rewritten, Apart, AreRewritable, ReplaceAt, FailsFirst;
    var rewriter := new MarkdownRewriter(source);
    var failure := rewriter.Visit(tree);
    if failure.Some? {
      ghost var path := FirstFailure(source, tree);
      return Rejected(failure.value);
    }
    assert rewriter.replacements == Gather(source, tree).rs;
    if WellPlaced(source, tree) { GatheredApart(source, tree); }
    PlacesAreRewritable(tree);
    GatheredAtPlaces(source, tree);
    var text := Splice(source, rewriter.replacements);
    assert IsRewrite(source, tree, Places(tree), rewriter.replacements, text);
    return Projected(text);
  }
}
