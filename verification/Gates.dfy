/** The gate graph of the aggregate runner: gates, their two edge kinds, and what
    makes a graph executable. */
module Gates {

  /** One gate. `needs` ids must pass before it starts; `after` ids must settle.
      A list the source leaves out is the empty list here. */
  datatype Gate = Gate(id: string, needs: seq<string>, after: seq<string>, allowFailure: bool)

  function Predecessors(gate: Gate): seq<string> {
    gate.needs + gate.after
  }

  function Ids(gates: seq<Gate>): (ids: set<string>) {
    set g | g in gates :: g.id
  }

  /** The id index. As with repeated keys of a JavaScript `Map`, a later gate wins. */
  function ById(gates: seq<Gate>): map<string, Gate> {
    if |gates| == 0 then map[] else ById(gates[..|gates| - 1])[gates[|gates| - 1].id := gates[|gates| - 1]]
  }

  lemma ByIdMembers(gates: seq<Gate>)
    ensures ById(gates).Keys == Ids(gates)
    ensures forall id :: id in ById(gates) ==> ById(gates)[id] in gates && ById(gates)[id].id == id
  {
    if |gates| > 0 {
      ByIdMembers(gates[..|gates| - 1]);
      assert gates == gates[..|gates| - 1] + [gates[|gates| - 1]];
    }
  }

  ghost predicate DistinctIds(gates: seq<Gate>) {
    forall i, j :: 0 <= i < j < |gates| ==> gates[i].id != gates[j].id
  }

  ghost predicate KnownPredecessors(gates: seq<Gate>) {
    forall g, p :: g in gates && p in Predecessors(g) ==> p in Ids(gates)
  }

  /** `a` waits for `b`, over either edge kind. */
  ghost predicate Edge(byId: map<string, Gate>, a: string, b: string) {
    a in byId && b in Predecessors(byId[a])
  }

  ghost predicate IsWalk(byId: map<string, Gate>, p: seq<string>) {
    forall i :: 0 <= i < |p| - 1 ==> Edge(byId, p[i], p[i + 1])
  }

  ghost predicate IsClosedWalk(byId: map<string, Gate>, p: seq<string>) {
    |p| >= 2 && p[0] == p[|p| - 1] && IsWalk(byId, p)
  }

  ghost predicate Acyclic(byId: map<string, Gate>) {
    forall p :: !IsClosedWalk(byId, p)
  }

  ghost predicate Distinct<T>(s: seq<T>) {
    forall i, j :: 0 <= i < j < |s| ==> s[i] != s[j]
  }

  /** Every known predecessor of an entry comes before it. */
  ghost predicate DependencyOrder(byId: map<string, Gate>, order: seq<string>) {
    && Distinct(order)
    && (forall i :: 0 <= i < |order| ==> order[i] in byId)
    && (forall i, p :: 0 <= i < |order| && p in Predecessors(byId[order[i]]) && p in byId ==> p in order[..i])
  }

  ghost predicate CompleteOrder(byId: map<string, Gate>, order: seq<string>) {
    DependencyOrder(byId, order) && forall id :: id in byId ==> id in order
  }

  /** What the runner accepts: non-empty, one gate an id, no dangling edge, no cycle. */
  ghost predicate ValidGraph(gates: seq<Gate>) {
    && |gates| > 0
    && DistinctIds(gates)
    && KnownPredecessors(gates)
    && Acyclic(ById(gates))
  }

  lemma ByIdOfDistinct(gates: seq<Gate>, g: Gate)
    requires DistinctIds(gates) && g in gates
    ensures g.id in ById(gates) && ById(gates)[g.id] == g
  {
    ByIdMembers(gates);
    var found := ById(gates)[g.id];
    var i :| 0 <= i < |gates| && gates[i] == g;
    var j :| 0 <= j < |gates| && gates[j] == found;
    assert i == j;
  }
}
