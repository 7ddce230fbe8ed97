/** Stable sorting with a comparison function, which is what ECMA-262 requires of
    `Array.prototype.sort`. */
module Sorting {

  /** Consistent comparison: signs are opposite both ways round, and it is transitive. */
  ghost predicate Comparator<T(!new)>(compare: (T, T) -> int) {
    && (forall a, b :: compare(a, b) < 0 <==> compare(b, a) > 0)
    && (forall a, b, c :: compare(a, b) <= 0 && compare(b, c) <= 0 ==> compare(a, c) <= 0)
  }

  /** Position `a` of `s` is sorted before position `b`; positions that tie keep their order. */
  predicate InOrder<T>(s: seq<T>, compare: (T, T) -> int, a: nat, b: nat)
    requires a < |s| && b < |s|
  {
    compare(s[a], s[b]) < 0 || (compare(s[a], s[b]) == 0 && a < b)
  }

  /** `order` lists the first `n` positions of `s`, each once, in sorted order. */
  ghost predicate Orders<T>(s: seq<T>, compare: (T, T) -> int, order: seq<nat>, n: nat) {
    && |order| == n <= |s|
    && Lists(order, n)
    && (forall i, j :: 0 <= i < j < n ==> InOrder(s, compare, order[i], order[j]))
  }

  ghost predicate Lists(order: seq<nat>, n: nat) {
    (forall i :: 0 <= i < |order| ==> order[i] < n) && (forall a: nat :: a < n ==> a in order)
  }

  function Inserted(order: seq<nat>, n: nat, at: nat): seq<nat>
    requires at <= |order|
  {
    order[..at] + [n] + order[at..]
  }

  lemma OrderExtends<T(!new)>(s: seq<T>, compare: (T, T) -> int, order: seq<nat>, n: nat, at: nat)
    requires Comparator(compare) && Orders(s, compare, order, n) && n < |s| && at <= n
    requires forall i :: 0 <= i < at ==> compare(s[order[i]], s[n]) <= 0
    requires at < n ==> compare(s[order[at]], s[n]) > 0
    ensures Orders(s, compare, Inserted(order, n, at), n + 1)
  {
    OrderCovers(order, n, at);
    var longer := Inserted(order, n, at);
    forall i, j | 0 <= i < j < |longer| ensures InOrder(s, compare, longer[i], longer[j]) {
      if i == at {
        assert longer[j] == order[j - 1];
        assert at < j - 1 ==> InOrder(s, compare, order[at], order[j - 1]);
      } else if j != at {
        var i', j' := if i < at then i else i - 1, if j < at then j else j - 1;
        assert longer[i] == order[i'] && longer[j] == order[j'];
      }
    }
  }

  lemma OrderCovers(order: seq<nat>, n: nat, at: nat)
    requires at <= |order| && Lists(order, n)
    ensures Lists(Inserted(order, n, at), n + 1)
  {
    var longer := Inserted(order, n, at);
    forall i | 0 <= i < |longer| ensures longer[i] < n + 1 {
      assert longer[i] == if i < at then order[i] else if i == at then n else order[i - 1];
    }
    forall a: nat | a < n + 1 ensures a in longer {
      if a < n {
        assert a in order;
        var i :| 0 <= i < |order| && order[i] == a;
        assert longer[if i < at then i else i + 1] == a;
      } else {
        assert longer[at] == a;
      }
    }
  }

  /** Every list has a stable order. */
  lemma {:induction false} OrderExists<T(!new)>(s: seq<T>, compare: (T, T) -> int, n: nat) returns (order: seq<nat>)
    requires Comparator(compare) && n <= |s|
    ensures Orders(s, compare, order, n)
  {
    if n == 0 { return []; }
    order := OrderExists(s, compare, n - 1);
    var at := FirstAbove(s, compare, order, n - 1, 0);
    OrderExtends(s, compare, order, n - 1, at);
    order := Inserted(order, n - 1, at);
  }

  lemma FirstAbove<T(!new)>(s: seq<T>, compare: (T, T) -> int, order: seq<nat>, n: nat, start: nat) returns (at: nat)
    requires Orders(s, compare, order, n) && n < |s| && start <= n
    requires forall i :: 0 <= i < start ==> compare(s[order[i]], s[n]) <= 0
    ensures at <= n && (forall i :: 0 <= i < at ==> compare(s[order[i]], s[n]) <= 0)
    ensures at < n ==> compare(s[order[at]], s[n]) > 0
    decreases n - start
  {
    if start == n || compare(s[order[start]], s[n]) > 0 { return start; }
    at := FirstAbove(s, compare, order, n, start + 1);
  }

  /** The sorted list has the same members, none above a later one. */
  lemma SortedMembers<T(!new)>(s: seq<T>, compare: (T, T) -> int, order: seq<nat>, sorted: seq<T>)
    requires Orders(s, compare, order, |s|)
    requires |sorted| == |s| && forall i :: 0 <= i < |s| ==> sorted[i] == s[order[i]]
    ensures forall x :: x in sorted <==> x in s
    ensures forall i, j :: 0 <= i < j < |sorted| ==> compare(sorted[i], sorted[j]) <= 0
  {
    forall x | x in s ensures x in sorted {
      var a :| 0 <= a < |s| && s[a] == x;
      assert a in order;
      var i :| 0 <= i < |order| && order[i] == a;
      assert sorted[i] == x;
    }
    forall i, j | 0 <= i < j < |sorted| ensures compare(sorted[i], sorted[j]) <= 0 {
      assert InOrder(s, compare, order[i], order[j]);
    }
  }

  method StableSort<T(!new)>(s: seq<T>, compare: (T, T) -> int) returns (sorted: seq<T>, ghost order: seq<nat>)
    requires Comparator(compare)
    ensures Orders(s, compare, order, |s|)
    ensures |sorted| == |s| && forall i :: 0 <= i < |s| ==> sorted[i] == s[order[i]]
    ensures forall x :: x in sorted <==> x in s
    ensures forall i, j :: 0 <= i < j < |sorted| ==> compare(sorted[i], sorted[j]) <= 0
  {
    sorted := [];
    order := [];
    for n := 0 to |s|
      invariant Orders(s, compare, order, n)
      invariant |sorted| == n && forall i :: 0 <= i < n ==> sorted[i] == s[order[i]]
    {
      var at := 0;
      while at < n && compare(sorted[at], s[n]) <= 0
        invariant 0 <= at <= n
        invariant forall i :: 0 <= i < at ==> compare(s[order[i]], s[n]) <= 0
      {
        at := at + 1;
      }
      OrderExtends(s, compare, order, n, at);
      sorted := sorted[..at] + [s[n]] + sorted[at..];
      order := Inserted(order, n, at);
    }
    SortedMembers(s, compare, order, sorted);
  }

  ghost predicate SortedBy<T>(s: seq<T>, before: (T, T) -> bool) {
    forall i, j :: 0 <= i < j < |s| ==> before(s[i], s[j])
  }

  /** There is one way only to put given values in a strict order. */
  lemma {:induction false} SortedUnique<T(!new)>(a: seq<T>, b: seq<T>, before: (T, T) -> bool)
    requires SortedBy(a, before) && SortedBy(b, before)
    requires forall x :: x in a <==> x in b
    requires forall x, y :: before(x, y) ==> !before(y, x)
    ensures a == b
  {
    if a == [] {
      if b != [] { HasMember(b); }
    } else {
      assert a[0] in b && b != [] && b[0] in a;
      var i :| 0 <= i < |a| && a[i] == b[0];
      var j :| 0 <= j < |b| && b[j] == a[0];
      assert i == 0 || j == 0;
      forall x ensures x in a[1..] <==> x in b[1..] {
        TailMember(a, x, before);
        TailMember(b, x, before);
      }
      SortedUnique(a[1..], b[1..], before);
      assert a == [a[0]] + a[1..] && b == [b[0]] + b[1..];
    }
  }

  lemma HasMember<T>(s: seq<T>)
    requires s != []
    ensures exists x :: x in s
  {
    assert s[0] in s;
  }

  lemma TailMember<T(!new)>(s: seq<T>, x: T, before: (T, T) -> bool)
    requires s != [] && SortedBy(s, before) && forall x, y :: before(x, y) ==> !before(y, x)
    ensures x in s[1..] <==> x in s && x != s[0]
  {
    if x in s[1..] {
      var i :| 0 < i < |s| && s[i] == x;
      assert before(s[0], s[i]);
    }
  }
}
