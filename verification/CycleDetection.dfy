/** Depth-first cycle detection over both edge kinds, and graph validation. */
module CycleDetection {
  import opened Wrappers
  import opened Gates

  ghost predicate IsSimpleCycle(byId: map<string, Gate>, p: seq<string>) {
    IsClosedWalk(byId, p) && Distinct(p[1..])
  }

  /** A dependency order admits no closed walk: walking an edge moves strictly earlier. */
  lemma OrderRulesOutWalk(byId: map<string, Gate>, order: seq<string>, p: seq<string>, k: nat)
    requires CompleteOrder(byId, order) && IsWalk(byId, p) && 1 <= k < |p| && p[|p| - 1] in byId
    ensures exists i, j :: 0 <= i < j < |order| && order[j] == p[0] && order[i] == p[k]
  {
    assert Edge(byId, p[0], p[1]);
    assert p[k] in byId by { if k < |p| - 1 { assert Edge(byId, p[k], p[k + 1]); } }
    var j :| 0 <= j < |order| && order[j] == p[0];
    if k == 1 {
      assert p[1] in order[..j];
    } else {
      OrderRulesOutWalk(byId, order, p, k - 1);
      var i1, j1 :| 0 <= i1 < j1 < |order| && order[j1] == p[0] && order[i1] == p[k - 1];
      assert Edge(byId, p[k - 1], p[k]);
      assert p[k] in order[..i1];
    }
  }

  lemma OrderedIsAcyclic(byId: map<string, Gate>, order: seq<string>)
    requires CompleteOrder(byId, order)
    ensures Acyclic(byId)
  {
    forall p ensures !IsClosedWalk(byId, p) {
      if IsClosedWalk(byId, p) {
        assert Edge(byId, p[0], p[1]);
        OrderRulesOutWalk(byId, order, p, |p| - 1);
      }
    }
  }

  lemma RevisitCloses(byId: map<string, Gate>, p: seq<string>, k: nat, q: string)
    requires IsWalk(byId, p) && k < |p| && p[k] == q && Edge(byId, p[|p| - 1], q)
    ensures IsClosedWalk(byId, p[k..] + [q])
  {
    var closed := p[k..] + [q];
    forall i | 0 <= i < |closed| - 1 ensures Edge(byId, closed[i], closed[i + 1]) {
      if i < |closed| - 2 { assert Edge(byId, p[k + i], p[k + i + 1]); }
    }
  }

  /** From a walk of ids outside `order`, reach one whose known predecessors are all
      inside: a walk that revisited an id would close. */
  lemma ReachMinimal(byId: map<string, Gate>, order: seq<string>, p: seq<string>) returns (id: string)
    requires Acyclic(byId) && IsWalk(byId, p) && p != []
    requires forall i :: 0 <= i < |p| ==> p[i] in byId && p[i] !in order
    ensures id in byId && id !in order
    ensures forall q :: q in Predecessors(byId[id]) && q in byId ==> q in order
    decreases byId.Keys - set q | q in p
  {
    id := p[|p| - 1];
    if q :| q in Predecessors(byId[id]) && q in byId && q !in order {
      if k :| 0 <= k < |p| && p[k] == q {
        RevisitCloses(byId, p, k, q);
        assert false;
      }
      var longer := p + [q];
      forall i | 0 <= i < |longer| - 1 ensures Edge(byId, longer[i], longer[i + 1]) {
        if i < |p| - 1 { assert Edge(byId, p[i], p[i + 1]); }
      }
      assert q in byId.Keys - (set r | r in p);
      assert (set r | r in longer) == (set r | r in p) + {q};
      id := ReachMinimal(byId, order, longer);
    }
  }

  lemma ExtendOrder(byId: map<string, Gate>, order: seq<string>) returns (complete: seq<string>)
    requires Acyclic(byId) && DependencyOrder(byId, order)
    ensures CompleteOrder(byId, complete)
    decreases byId.Keys - set q | q in order
  {
    complete := order;
    if id :| id in byId && id !in order {
      var next := ReachMinimal(byId, order, [id]);
      var longer := order + [next];
      forall i, q | 0 <= i < |longer| && q in Predecessors(byId[longer[i]]) && q in byId
        ensures q in longer[..i]
      {
        if i == |order| { assert longer[..i] == order; }
        else { assert longer[..i] == order[..i]; assert q in Predecessors(byId[order[i]]); }
      }
      assert next in byId.Keys - (set r | r in order);
      assert (set r | r in longer) == (set r | r in order) + {next};
      complete := ExtendOrder(byId, longer);
    }
  }

  /** Having a dependency order and having no cycle are the same thing. */
  lemma AcyclicIffOrdered(byId: map<string, Gate>)
    ensures Acyclic(byId) <==> exists order :: CompleteOrder(byId, order)
  {
    if Acyclic(byId) {
      var order := ExtendOrder(byId, []);
    }
    forall order | CompleteOrder(byId, order) ensures Acyclic(byId) {
      OrderedIsAcyclic(byId, order);
    }
  }

  /** The search state between two visits: `path` is a walk of the active ids, and
      `finished` lists the completed ids in a dependency order. */
  ghost predicate ValidSearch(byId: map<string, Gate>, complete: set<string>, active: map<string, nat>,
                              path: seq<string>, finished: seq<string>)
  {
    && IsWalk(byId, path)
    && (forall i :: 0 <= i < |path| ==> path[i] in byId && path[i] in active && active[path[i]] == i)
    && (forall id :: id in active ==> active[id] < |path| && path[active[id]] == id)
    && DependencyOrder(byId, finished)
    && (forall id :: id in finished <==> id in complete)
    && complete !! active.Keys
  }

  lemma EnterKeepsValid(byId: map<string, Gate>, complete: set<string>, active: map<string, nat>,
                        path: seq<string>, finished: seq<string>, id: string)
    requires ValidSearch(byId, complete, active, path, finished)
    requires id in byId && id !in complete && id !in active
    requires path != [] ==> Edge(byId, path[|path| - 1], id)
    ensures ValidSearch(byId, complete, active[id := |path|], path + [id], finished)
  {
    var path' := path + [id];
    forall i | 0 <= i < |path'| - 1 ensures Edge(byId, path'[i], path'[i + 1]) {
      if i < |path| - 1 { assert Edge(byId, path[i], path[i + 1]); }
    }
  }

  lemma LeaveKeepsValid(byId: map<string, Gate>, complete: set<string>, active: map<string, nat>, path: seq<string>,
        finished: seq<string>, active': map<string, nat>, path': seq<string>, id: string)
    requires ValidSearch(byId, complete, active, path, finished)
    requires ValidSearch(byId, complete, active', path', finished)
    requires active' == active[id := |path|] && path' == path + [id]
    requires id in byId && id !in active
    requires forall p :: p in Predecessors(byId[id]) && p in byId ==> p in complete
    ensures ValidSearch(byId, complete + {id}, active, path, finished + [id])
  {
    assert id in active';
    var finished' := finished + [id];
    assert forall i :: 0 <= i < |finished'| ==> finished'[i] in byId;
    forall i, p | 0 <= i < |finished'| && p in Predecessors(byId[finished'[i]]) && p in byId
      ensures p in finished'[..i]
    {
      if i == |finished| {
        assert finished'[..i] == finished;
      } else {
        assert finished'[..i] == finished[..i];
        assert p in Predecessors(byId[finished[i]]);
      }
    }
  }

  lemma ActiveClosesCycle(byId: map<string, Gate>, complete: set<string>, active: map<string, nat>,
                          path: seq<string>, finished: seq<string>, id: string)
    requires ValidSearch(byId, complete, active, path, finished)
    requires id in active && Edge(byId, path[|path| - 1], id)
    ensures IsSimpleCycle(byId, path[active[id]..] + [id])
  {
    var n := active[id];
    var p := path[n..] + [id];
    forall i | 0 <= i < |p| - 1 ensures Edge(byId, p[i], p[i + 1]) {
      if i < |p| - 2 { assert Edge(byId, path[n + i], path[n + i + 1]); }
    }
    forall i, j | 0 <= i < j < |p| - 1 ensures p[1..][i] != p[1..][j] {
      assert p[i + 1] == path[n + i + 1];
      assert j < |p| - 2 ==> p[j + 1] == path[n + j + 1];
    }
  }

  class DependencyCycleFinder {
    const byId: map<string, Gate>
    var complete: set<string>
    var active: map<string, nat>
    var path: seq<string>
    /** The completed ids in the order they completed. */
    ghost var finished: seq<string>

    ghost predicate Valid()
      reads this
    {
      ValidSearch(byId, complete, active, path, finished)
    }

    constructor (gates: seq<Gate>)
      ensures Valid() && byId == ById(gates) && path == [] && complete == {}
    {
      byId := ById(gates);
      complete, active, path, finished := {}, map[], [], [];
    }

    method Visit(id: string) returns (cycle: Option<seq<string>>)
      requires Valid()
      requires path != [] ==> Edge(byId, path[|path| - 1], id)
      modifies this
      ensures cycle.Some? ==> IsSimpleCycle(byId, cycle.value)
      ensures cycle.None? ==> Valid() && path == old(path) && active == old(active) && old(complete) <= complete
      ensures cycle.None? && id in byId ==> id in complete
      decreases byId.Keys - complete - active.Keys, 0
    {
      if id in complete { return None; }
      if id in active {
        ActiveClosesCycle(byId, complete, active, path, finished, id);
        return Some(path[active[id]..] + [id]);
      }
      if id !in byId { return None; }
      assert id in byId.Keys - complete - active.Keys;
      Enter(id);
      assert byId.Keys - complete - active.Keys == old(byId.Keys - complete - active.Keys) - {id};
      cycle := VisitPredecessors(id);
      if cycle.None? { Leave(id, old(path), old(active)); }
    }

    method Enter(id: string)
      requires Valid()
      requires id in byId && id !in complete && id !in active
      requires path != [] ==> Edge(byId, path[|path| - 1], id)
      modifies `active, `path
      ensures Valid()
      ensures path == old(path) + [id] && active == old(active)[id := |old(path)|]
    {
      EnterKeepsValid(byId, complete, active, path, finished, id);
      active := active[id := |path|];
      path := path + [id];
    }

    method VisitPredecessors(id: string) returns (cycle: Option<seq<string>>)
      requires Valid()
      requires path != [] && path[|path| - 1] == id && id in byId
      modifies this
      ensures cycle.Some? ==> IsSimpleCycle(byId, cycle.value)
      ensures cycle.None? ==> Valid() && path == old(path) && active == old(active) && old(complete) <= complete
      ensures cycle.None? ==> forall p :: p in Predecessors(byId[id]) && p in byId ==> p in complete
      decreases byId.Keys - complete - active.Keys, 1
    {
      var predecessors := byId[id].needs + byId[id].after;
      for k := 0 to |predecessors|
        invariant Valid()
        invariant path == old(path) && active == old(active) && old(complete) <= complete
        invariant forall j :: 0 <= j < k && predecessors[j] in byId ==> predecessors[j] in complete
      {
        assert Edge(byId, id, predecessors[k]);
        assert byId.Keys - complete - active.Keys <= old(byId.Keys - complete - active.Keys);
        cycle := Visit(predecessors[k]);
        if cycle.Some? { return; }
      }
      return None;
    }

    /** The search from every gate in turn. */
    method VisitAll(gates: seq<Gate>) returns (cycle: Option<seq<string>>)
      requires Valid() && path == []
      requires forall g :: g in gates ==> g.id in byId
      modifies this
      ensures cycle.Some? ==> IsSimpleCycle(byId, cycle.value)
      ensures cycle.None? ==> Valid() && forall g :: g in gates ==> g.id in complete
    {
      for k := 0 to |gates|
        invariant Valid() && path == []
        invariant forall j :: 0 <= j < k ==> gates[j].id in complete
      {
        cycle := Visit(gates[k].id);
        if cycle.Some? { return; }
      }
      return None;
    }

    method Leave(id: string, ghost outerPath: seq<string>, ghost outerActive: map<string, nat>)
      requires Valid() && id in byId && id !in outerActive
      requires path == outerPath + [id] && active == outerActive[id := |outerPath|]
      requires forall p :: p in Predecessors(byId[id]) && p in byId ==> p in complete
      modifies this
      ensures Valid()
      ensures path == outerPath && active == outerActive && complete == old(complete) + {id}
    {
      OuterStaysValid(byId, complete, active, path, finished, outerActive, outerPath, id);
      LeaveKeepsValid(byId, complete, outerActive, outerPath, finished, active, path, id);
      path := path[..|path| - 1];
      active := active - {id};
      complete := complete + {id};
      finished := finished + [id];
      assert path == outerPath && active == outerActive;
    }
  }

  /** Dropping the last active id leaves a valid search state. */
  lemma OuterStaysValid(byId: map<string, Gate>, complete: set<string>, active: map<string, nat>, path: seq<string>,
        finished: seq<string>, outerActive: map<string, nat>, outerPath: seq<string>, id: string)
    requires ValidSearch(byId, complete, active, path, finished)
    requires id !in outerActive && active == outerActive[id := |outerPath|] && path == outerPath + [id]
    ensures ValidSearch(byId, complete, outerActive, outerPath, finished)
  {
    assert forall i :: 0 <= i < |outerPath| ==> outerPath[i] == path[i];
    forall i | 0 <= i < |outerPath| - 1 ensures Edge(byId, outerPath[i], outerPath[i + 1]) {
      assert Edge(byId, path[i], path[i + 1]);
    }
    forall a | a in outerActive ensures outerActive[a] < |outerPath| && outerPath[outerActive[a]] == a {
      assert active[a] == outerActive[a];
    }
  }

  lemma AllVisitedIsAcyclic(byId: map<string, Gate>, complete: set<string>, active: map<string, nat>,
                            path: seq<string>, finished: seq<string>)
    requires ValidSearch(byId, complete, active, path, finished) && byId.Keys <= complete
    ensures Acyclic(byId)
  {
    OrderedIsAcyclic(byId, finished);
  }

  /** Returns a cycle of real edges, or nothing exactly when there is none. */
  method FindDependencyCycle(gates: seq<Gate>) returns (cycle: Option<seq<string>>)
    ensures cycle.Some? ==> IsSimpleCycle(ById(gates), cycle.value)
    ensures cycle.None? <==> Acyclic(ById(gates))
  {
    var finder := new DependencyCycleFinder(gates);
    ByIdMembers(gates);
    cycle := finder.VisitAll(gates);
    if cycle.Some? {
      assert IsClosedWalk(finder.byId, cycle.value);
    } else {
      AllVisitedIsAcyclic(finder.byId, finder.complete, finder.active, finder.path, finder.finished);
    }
  }

  datatype GraphError =
    | NoGates
    | DuplicateId(id: string)
    | UnknownNeed(id: string, dependency: string)
    | UnknownAfter(id: string, predecessor: string)
    | DependencyCycle(path: seq<string>)

  /** All predecessors of these gates, and all of these besides, are ids. */
  ghost predicate AllKnown(gates: seq<Gate>, n: nat, more: seq<string>)
    requires n <= |gates|
  {
    && (forall j, p :: 0 <= j < n && p in Predecessors(gates[j]) ==> p in Ids(gates))
    && (forall p :: p in more ==> p in Ids(gates))
  }

  /** What each rejection means: the first defect in the order of the checks, and in each
      check in the order of the list. */
  ghost predicate Explains(gates: seq<Gate>, error: GraphError) {
    match error
    case NoGates => gates == []
    case DuplicateId(id) =>
      exists i, j :: 0 <= i < j < |gates| && gates[i].id == gates[j].id == id && DistinctIds(gates[..j])
    case UnknownNeed(id, d) =>
      DistinctIds(gates) && d !in Ids(gates) && exists k, n ::
        0 <= k < |gates| && gates[k].id == id && 0 <= n < |gates[k].needs| && gates[k].needs[n] == d
        && AllKnown(gates, k, gates[k].needs[..n])
    case UnknownAfter(id, p) =>
      DistinctIds(gates) && p !in Ids(gates) && exists k, n ::
        0 <= k < |gates| && gates[k].id == id && 0 <= n < |gates[k].after| && gates[k].after[n] == p
        && AllKnown(gates, k, gates[k].needs + gates[k].after[..n])
    case DependencyCycle(p) => DistinctIds(gates) && KnownPredecessors(gates) && IsSimpleCycle(ById(gates), p)
  }

  method ValidateGateGraph(gates: seq<Gate>) returns (error: Option<GraphError>)
    ensures error.None? <==> ValidGraph(gates)
    ensures error.Some? ==> Explains(gates, error.value)
  {
    if |gates| == 0 { return Some(NoGates); }

    var ids: set<string> := {};
    for k := 0 to |gates|
      invariant ids == Ids(gates[..k])
      invariant DistinctIds(gates[..k])
    {
      assert gates[..k + 1] == gates[..k] + [gates[k]];
      if gates[k].id in ids {
        var i :| 0 <= i < k && gates[i].id == gates[k].id;
        return Some(DuplicateId(gates[k].id));
      }
      ids := ids + {gates[k].id};
    }
    assert gates[..|gates|] == gates;
    for k := 0 to |gates|
      invariant forall j, p :: 0 <= j < k && p in Predecessors(gates[j]) ==> p in ids
    {
      for n := 0 to |gates[k].needs|
        invariant forall j :: 0 <= j < n ==> gates[k].needs[j] in ids
      {
        if gates[k].needs[n] !in ids {
          assert gates[k].needs[n] in Predecessors(gates[k]);
          assert AllKnown(gates, k, gates[k].needs[..n]);
          return Some(UnknownNeed(gates[k].id, gates[k].needs[n]));
        }
      }
      for n := 0 to |gates[k].after|
        invariant forall j :: 0 <= j < n ==> gates[k].after[j] in ids
      {
        if gates[k].after[n] !in ids {
          assert gates[k].after[n] in Predecessors(gates[k]);
          assert AllKnown(gates, k, gates[k].needs + gates[k].after[..n]);
          return Some(UnknownAfter(gates[k].id, gates[k].after[n]));
        }
      }
    }
    var cycle := FindDependencyCycle(gates);
    if cycle.Some? { return Some(DependencyCycle(cycle.value)); }
    return None;
  }
}
