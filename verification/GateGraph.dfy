// Gate lists and their validation before a run: duplicate and unknown ids are rejected,
// then a depth-first search looks for a dependency cycle.
module GateGraph {
  import opened Options
  import opened Digraphs

  // The scheduling metadata of a gate; an omitted list is an empty one.
  datatype Gate = Gate(id: string, needs: seq<string>, after: seq<string>)

  function Predecessors(gate: Gate): seq<string> {
    gate.needs + gate.after
  }

  // The table from ids to gates; a later gate replaces an earlier one with the same id.
  function ById(gates: seq<Gate>): map<string, Gate> {
    if gates == [] then map[]
    else var last := gates[|gates| - 1]; ById(gates[..|gates| - 1])[last.id := last]
  }

  function GraphOf(gates: seq<Gate>): (g: Graph<string>) {
    map id | id in ById(gates) :: Predecessors(ById(gates)[id])
  }

  ghost predicate UniqueIds(gates: seq<Gate>) {
    forall i, j :: 0 <= i < j < |gates| ==> gates[i].id != gates[j].id
  }

  ghost predicate HasId(gates: seq<Gate>, id: string) {
    exists i :: 0 <= i < |gates| && gates[i].id == id
  }

  ghost predicate NeedsKnown(gates: seq<Gate>, gate: Gate) {
    forall d :: d in gate.needs ==> d in ById(gates)
  }

  ghost predicate AfterKnown(gates: seq<Gate>, gate: Gate) {
    forall d :: d in gate.after ==> d in ById(gates)
  }

  ghost predicate AllKnown(gates: seq<Gate>) {
    forall gate :: gate in gates ==> NeedsKnown(gates, gate) && AfterKnown(gates, gate)
  }

  ghost predicate ValidGraph(gates: seq<Gate>) {
    gates != [] && UniqueIds(gates) && AllKnown(gates) && Acyclic(GraphOf(gates))
  }

  lemma {:induction false} ByIdKeys(gates: seq<Gate>, id: string)
    ensures id in ById(gates) <==> HasId(gates, id)
    ensures id in ById(gates) ==> ById(gates)[id] in gates && ById(gates)[id].id == id
  {
    if gates != [] {
      var front, last := gates[..|gates| - 1], gates[|gates| - 1];
      ByIdKeys(front, id);
      if last.id != id && HasId(gates, id) {
        var i :| 0 <= i < |gates| && gates[i].id == id;
        assert front[i].id == id;
      }
      if HasId(front, id) {
        var i :| 0 <= i < |front| && front[i].id == id;
        assert gates[i].id == id;
      }
    }
  }

  lemma {:induction false} ByIdOfGate(gates: seq<Gate>, i: nat)
    requires UniqueIds(gates) && i < |gates|
    ensures gates[i].id in ById(gates) && ById(gates)[gates[i].id] == gates[i]
  {
    var front, last := gates[..|gates| - 1], gates[|gates| - 1];
    if i < |front| {
      ByIdOfGate(front, i);
      assert front[i] == gates[i];
    }
  }

  // The gates being visited form a walk, and `active` is the index of each in it.
  ghost predicate ActivePath<T(!new)>(g: Graph<T>, active: map<T, nat>, path: seq<T>) {
    && (forall id :: id in active ==> id in g && active[id] < |path| && path[active[id]] == id)
    && (forall i :: 0 <= i < |path| ==> path[i] in active && active[path[i]] == i)
    && (path != [] ==> IsWalk(g, path))
  }

  lemma EnterPath<T(!new)>(g: Graph<T>, active: map<T, nat>, path: seq<T>, id: T)
    requires ActivePath(g, active, path) && id in g && id !in active
    requires path != [] ==> IsEdge(g, path[|path| - 1], id)
    ensures ActivePath(g, active[id := |path|], path + [id])
    ensures g.Keys - active[id := |path|].Keys < g.Keys - active.Keys
  {
    if path != [] { WalkSnoc(g, path, id); }
    assert g.Keys - active[id := |path|].Keys == (g.Keys - active.Keys) - {id};
    assert id in g.Keys - active.Keys;
  }

  lemma ActiveMeansCycle<T(!new)>(g: Graph<T>, active: map<T, nat>, path: seq<T>, id: T)
    requires ActivePath(g, active, path) && id in active && IsEdge(g, path[|path| - 1], id)
    ensures IsCycle(g, path[active[id]..] + [id])
  {
    WalkSnoc(g, path, id);
    ReturningWalkCycles(g, path + [id], active[id]);
    assert (path + [id])[active[id]..] == path[active[id]..] + [id];
  }

  // Completed gates are ranked, so closed under edges; the others visited so far are active.
  ghost predicate SearchInvariant<T(!new)>(g: Graph<T>, complete: set<T>, active: map<T, nat>, path: seq<T>,
                                           rank: map<T, nat>)
  {
    && complete !! active.Keys
    && complete == rank.Keys
    && PartialRank(g, rank)
    && ActivePath(g, active, path)
  }

  ghost predicate AllComplete<T(!new)>(g: Graph<T>, complete: set<T>, ids: seq<T>) {
    forall b :: b in ids && b in g ==> b in complete
  }

  lemma CompleteSnoc<T(!new)>(g: Graph<T>, before: set<T>, complete: set<T>, ids: seq<T>, k: nat)
    requires k < |ids| && AllComplete(g, before, ids[..k]) && before <= complete
    requires ids[k] in g ==> ids[k] in complete
    ensures AllComplete(g, complete, ids[..k + 1])
  {
    assert ids[..k + 1] == ids[..k] + [ids[k]];
  }

  lemma LeavePath<T(!new)>(g: Graph<T>, active: map<T, nat>, path: seq<T>, rank: map<T, nat>, id: T)
    requires SearchInvariant(g, rank.Keys, active[id := |path|], path + [id], rank)
    requires ActivePath(g, active, path) && id in g && id !in active
    requires AllComplete(g, rank.Keys, g[id])
    ensures SearchInvariant(g, rank.Keys + {id}, active, path, rank[id := |rank|])
  {
    RankSnoc(g, rank, id);
  }

  lemma PathUndo<T>(active: map<T, nat>, path: seq<T>, id: T)
    requires id !in active
    ensures (path + [id])[..|path|] == path && active[id := |path|] - {id} == active
  {
    assert active[id := |path|].Keys - {id} == active.Keys;
  }

  // The state of findDependencyCycle and of its inner `visit`.
  class CycleSearch<T(==,!new)> {
    const graph: Graph<T>
    var complete: set<T>
    var active: map<T, nat>
    var path: seq<T>
    ghost var rank: map<T, nat>

    constructor (g: Graph<T>)
      ensures graph == g && Valid() && path == [] && complete == {}
    {
      graph := g;
      complete, active, path, rank := {}, map[], [], map[];
    }

    ghost predicate Valid()
      reads this
    {
      SearchInvariant(graph, complete, active, path, rank)
    }

    // Reports a cycle through `id`, or completes `id` and everything it depends on.
    method Visit(id: T) returns (cycle: Option<seq<T>>)
      requires Valid()
      requires path != [] ==> IsEdge(graph, path[|path| - 1], id)
      modifies this
      ensures cycle.Some? ==> IsCycle(graph, cycle.value)
      ensures cycle.None? ==> Valid() && path == old(path) && active == old(active)
      ensures cycle.None? ==> old(complete) <= complete && (id in graph ==> id in complete)
      decreases graph.Keys - active.Keys, 1
    {
      if id in complete { return None; }
      if id in active {
        ActiveMeansCycle(graph, active, path, id);
        return Some(path[active[id]..] + [id]);
      }
      if id !in graph { return None; }

      EnterPath(graph, active, path, id);
      active := active[id := |path|];
      path := path + [id];
      cycle := VisitAll(id, graph[id]);
      if cycle.Some? { return; }
      Leave(id, old(path), old(active));
    }

    method Leave(id: T, ghost outerPath: seq<T>, ghost outerActive: map<T, nat>)
      requires Valid() && id in graph && id !in complete && id !in outerActive
      requires ActivePath(graph, outerActive, outerPath)
      requires path == outerPath + [id] && active == outerActive[id := |outerPath|]
      requires AllComplete(graph, complete, graph[id])
      modifies this
      ensures Valid() && path == outerPath && active == outerActive && complete == old(complete) + {id}
    {
      LeavePath(graph, outerActive, outerPath, rank, id);
      PathUndo(outerActive, outerPath, id);
      path := path[..|path| - 1];
      active := active - {id};
      complete := complete + {id};
      rank := rank[id := |rank|];
    }

    // The loop of `visit` over the predecessors of the gate on top of the path.
    method VisitAll(id: T, predecessors: seq<T>) returns (cycle: Option<seq<T>>)
      requires Valid() && path != [] && path[|path| - 1] == id && graph[id] == predecessors
      modifies this
      ensures cycle.Some? ==> IsCycle(graph, cycle.value)
      ensures cycle.None? ==> Valid() && path == old(path) && active == old(active)
      ensures cycle.None? ==> old(complete) <= complete
      ensures cycle.None? ==> AllComplete(graph, complete, predecessors)
      decreases graph.Keys - active.Keys, 2
    {
      for k := 0 to |predecessors|
        invariant Valid() && path == old(path) && active == old(active)
        invariant old(complete) <= complete
        invariant AllComplete(graph, complete, predecessors[..k])
      {
        ghost var before := complete;
        assert IsEdge(graph, id, predecessors[k]);
        cycle := Visit(predecessors[k]);
        if cycle.Some? { return; }
        CompleteSnoc(graph, before, complete, predecessors, k);
      }
      assert predecessors[..|predecessors|] == predecessors;
      return None;
    }
  }

  // The search is exact: no cycle is reported exactly when the graph has none.
  method FindDependencyCycle(gates: seq<Gate>) returns (cycle: Option<seq<string>>)
    ensures cycle.None? <==> Acyclic(GraphOf(gates))
    ensures cycle.Some? ==> IsCycle(GraphOf(gates), cycle.value)
  {
    var search := new CycleSearch(GraphOf(gates));
    for i := 0 to |gates|
      invariant search.Valid() && search.path == []
      invariant forall k :: 0 <= k < i ==> gates[k].id in search.complete
    {
      GateIsNode(gates, i);
      cycle := search.Visit(gates[i].id);
      if cycle.Some? { return; }
    }
    AllCompleteIsAcyclic(gates, search.complete, search.active, search.rank);
    return None;
  }

  lemma GateIsNode(gates: seq<Gate>, i: nat)
    requires i < |gates|
    ensures gates[i].id in GraphOf(gates)
  {
    ByIdKeys(gates, gates[i].id);
  }

  // A search that has completed every gate without a report has ranked them all.
  lemma AllCompleteIsAcyclic(gates: seq<Gate>, complete: set<string>, active: map<string, nat>,
                             rank: map<string, nat>)
    requires SearchInvariant(GraphOf(gates), complete, active, [], rank)
    requires forall k :: 0 <= k < |gates| ==> gates[k].id in complete
    ensures Acyclic(GraphOf(gates))
  {
    forall id | id in GraphOf(gates) ensures id in rank {
      ByIdKeys(gates, id);
      assert HasId(gates, id);
    }
    assert IsRank(GraphOf(gates), rank);
    AcyclicIffRanked(GraphOf(gates));
  }

  datatype GraphError =
    | NoGates
    | DuplicateId(id: string)
    | UnknownNeed(gate: Gate, dependency: string)
    | UnknownAfter(gate: Gate, predecessor: string)
    | DependencyCycle(path: seq<string>)

  // The complaint is true of the gate list and is the first kind that applies.
  ghost predicate Complaint(gates: seq<Gate>, error: GraphError) {
    match error
    case NoGates => gates == []
    case DuplicateId(id) =>
      exists i, j :: 0 <= i < j < |gates| && gates[i].id == gates[j].id == id
    case UnknownNeed(gate, d) =>
      UniqueIds(gates) && gate in gates && d in gate.needs && d !in ById(gates)
    case UnknownAfter(gate, d) =>
      UniqueIds(gates) && gate in gates && NeedsKnown(gates, gate) && d in gate.after && d !in ById(gates)
    case DependencyCycle(path) =>
      UniqueIds(gates) && AllKnown(gates) && IsCycle(GraphOf(gates), path)
  }

  function Ids(gates: seq<Gate>): set<string> {
    set gate | gate in gates :: gate.id
  }

  lemma NextId(gates: seq<Gate>, i: nat)
    requires i < |gates| && UniqueIds(gates[..i])
    ensures Ids(gates[..i + 1]) == Ids(gates[..i]) + {gates[i].id}
    ensures if gates[i].id in Ids(gates[..i]) then Complaint(gates, DuplicateId(gates[i].id)) && !UniqueIds(gates)
            else UniqueIds(gates[..i + 1])
  {
    assert gates[..i + 1] == gates[..i] + [gates[i]];
    if gates[i].id in Ids(gates[..i]) {
      var k :| 0 <= k < i && gates[k].id == gates[i].id;
    }
  }

  lemma IdsAreKeys(gates: seq<Gate>)
    ensures Ids(gates) == ById(gates).Keys
  {
    forall id ensures id in Ids(gates) <==> id in ById(gates) {
      ByIdKeys(gates, id);
      if HasId(gates, id) {
        var i :| 0 <= i < |gates| && gates[i].id == id;
        assert gates[i] in gates;
      }
    }
  }

  lemma NeedIsUnknown(gates: seq<Gate>, i: nat, j: nat)
    requires UniqueIds(gates) && i < |gates| && j < |gates[i].needs| && gates[i].needs[j] !in ById(gates)
    ensures Complaint(gates, UnknownNeed(gates[i], gates[i].needs[j])) && !AllKnown(gates)
  {
    assert !NeedsKnown(gates, gates[i]);
  }

  lemma AfterIsUnknown(gates: seq<Gate>, i: nat, j: nat)
    requires UniqueIds(gates) && i < |gates| && j < |gates[i].after| && gates[i].after[j] !in ById(gates)
    requires NeedsKnown(gates, gates[i])
    ensures Complaint(gates, UnknownAfter(gates[i], gates[i].after[j])) && !AllKnown(gates)
  {
    assert !AfterKnown(gates, gates[i]);
  }

  // Accepts exactly the lists that can be executed unambiguously.
  method ValidateGateGraph(gates: seq<Gate>) returns (error: Option<GraphError>)
    ensures error.None? <==> ValidGraph(gates)
    ensures error.Some? ==> Complaint(gates, error.value)
  {
    if |gates| == 0 { return Some(NoGates); }
    var ids: set<string> := {};
    for i := 0 to |gates|
      invariant ids == Ids(gates[..i]) && UniqueIds(gates[..i])
    {
      NextId(gates, i);
      if gates[i].id in ids { return Some(DuplicateId(gates[i].id)); }
      ids := ids + {gates[i].id};
    }
    assert gates[..|gates|] == gates;
    IdsAreKeys(gates);
    for i := 0 to |gates|
      invariant forall k :: 0 <= k < i ==> NeedsKnown(gates, gates[k]) && AfterKnown(gates, gates[k])
    {
      var gate := gates[i];
      for j := 0 to |gate.needs|
        invariant forall k :: 0 <= k < j ==> gate.needs[k] in ids
      {
        if gate.needs[j] !in ids {
          NeedIsUnknown(gates, i, j);
          return Some(UnknownNeed(gate, gate.needs[j]));
        }
      }
      assert NeedsKnown(gates, gate);
      for j := 0 to |gate.after|
        invariant forall k :: 0 <= k < j ==> gate.after[k] in ids
      {
        if gate.after[j] !in ids {
          AfterIsUnknown(gates, i, j);
          return Some(UnknownAfter(gate, gate.after[j]));
        }
      }
    }
    var cycle := FindDependencyCycle(gates);
    if cycle.Some? { return Some(DependencyCycle(cycle.value)); }
    return None;
  }
}
