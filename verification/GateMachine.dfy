// The gate scheduler as a state machine. One step starts the first ready gate, settles one
// running gate (any of them: children complete in any order), or skips one blocked gate.
module GateMachine {
  import opened Options
  import opened Selections
  import opened Digraphs
  import opened GateGraph

  datatype Status = Passed | Failed | Skipped

  datatype GateState = Pending | Running | Settled(status: Status)

  // `failedDeps` is what the skip message lists; an executor's result carries its own error text.
  datatype GateResult = GateResult(gate: Gate, status: Status, error: string, failedDeps: seq<string>)

  type States = map<string, GateState>

  // Executing a gate eventually settles it with the result the executor fixes for it.
  type Executor = Gate -> GateResult

  datatype Machine = Machine(states: States, running: seq<Gate>, results: map<string, GateResult>)

  predicate IsPending(states: States, gate: Gate) {
    gate.id in states && states[gate.id] == Pending
  }

  predicate HasPassed(states: States, id: string) {
    id in states && states[id] == Settled(Passed)
  }

  predicate HasSettled(states: States, id: string) {
    id in states && states[id].Settled?
  }

  predicate HasFailed(states: States, id: string) {
    HasSettled(states, id) && states[id].status != Passed
  }

  predicate PredecessorsReady(gate: Gate, states: States) {
    && (forall d :: d in gate.needs ==> HasPassed(states, d))
    && (forall d :: d in gate.after ==> HasSettled(states, d))
  }

  predicate Ready(gate: Gate, states: States) {
    IsPending(states, gate) && PredecessorsReady(gate, states)
  }

  predicate Blocked(gate: Gate, states: States) {
    IsPending(states, gate) && exists d :: d in gate.needs && HasFailed(states, d)
  }

  // The index of the first item from `from` on that satisfies p, or |items|.
  function IndexWhere<T>(items: seq<T>, p: T -> bool, from: nat): (k: nat)
    requires from <= |items|
    ensures from <= k <= |items|
    ensures forall j :: from <= j < k ==> !p(items[j])
    ensures k < |items| ==> p(items[k])
    decreases |items| - from
  {
    if from == |items| || p(items[from]) then from else IndexWhere(items, p, from + 1)
  }

  function FirstWhere<T>(items: seq<T>, p: T -> bool): (r: Option<T>)
    ensures r.Some? ==> r.value in items && p(r.value)
    ensures r.None? ==> forall x :: x in items ==> !p(x)
  {
    var k := IndexWhere(items, p, 0);
    if k < |items| then Some(items[k]) else None
  }

  function FirstReady(gates: seq<Gate>, states: States): Option<Gate> {
    FirstWhere(gates, (gate: Gate) => Ready(gate, states))
  }

  function FirstPending(gates: seq<Gate>, states: States): Option<Gate> {
    FirstWhere(gates, (gate: Gate) => IsPending(states, gate))
  }

  function FirstBlocked(gates: seq<Gate>, states: States): Option<Gate> {
    FirstWhere(gates, (gate: Gate) => Blocked(gate, states))
  }

  function SkipResult(gate: Gate, states: States): GateResult {
    GateResult(gate, Skipped, "dependency failed or skipped", Select(gate.needs, (d: string) => HasFailed(states, d)))
  }

  function Initial(gates: seq<Gate>): Machine {
    Machine(map id | id in ById(gates) :: Pending, [], map[])
  }

  function StartGate(m: Machine, gate: Gate): Machine {
    m.(states := m.states[gate.id := Running], running := m.running + [gate])
  }

  function SettleGate(m: Machine, i: nat, execute: Executor): Machine
    requires i < |m.running|
  {
    var gate := m.running[i];
    var result := execute(gate);
    Machine(m.states[gate.id := Settled(result.status)],
            m.running[..i] + m.running[i + 1..],
            m.results[gate.id := result])
  }

  function SkipGate(m: Machine, gate: Gate): Machine {
    m.(states := m.states[gate.id := Settled(Skipped)],
       results := m.results[gate.id := SkipResult(gate, m.states)])
  }

  predicate CanStart(gates: seq<Gate>, maxActive: nat, m: Machine) {
    |m.running| < maxActive && FirstReady(gates, m.states).Some?
  }

  predicate Starts(gates: seq<Gate>, maxActive: nat, m: Machine, n: Machine) {
    CanStart(gates, maxActive, m) && n == StartGate(m, FirstReady(gates, m.states).value)
  }

  predicate Skips(gates: seq<Gate>, maxActive: nat, m: Machine, n: Machine) {
    && !CanStart(gates, maxActive, m) && m.running == []
    && FirstBlocked(gates, m.states).Some?
    && n == SkipGate(m, FirstBlocked(gates, m.states).value)
  }

  predicate Settles(gates: seq<Gate>, maxActive: nat, execute: Executor, m: Machine, n: Machine, i: nat) {
    !CanStart(gates, maxActive, m) && i < |m.running| && n == SettleGate(m, i, execute)
  }

  ghost predicate Next(gates: seq<Gate>, maxActive: nat, execute: Executor, m: Machine, n: Machine) {
    || Starts(gates, maxActive, m, n)
    || Skips(gates, maxActive, m, n)
    || exists i: nat :: Settles(gates, maxActive, execute, m, n, i)
  }

  ghost predicate StepAt(gates: seq<Gate>, maxActive: nat, execute: Executor, run: seq<Machine>, k: nat) {
    k + 1 < |run| && Next(gates, maxActive, execute, run[k], run[k + 1])
  }

  ghost predicate IsRun(gates: seq<Gate>, maxActive: nat, execute: Executor, run: seq<Machine>) {
    && |run| > 0 && run[0] == Initial(gates)
    && forall k: nat :: k + 1 < |run| ==> StepAt(gates, maxActive, execute, run, k)
  }

  // Why a gate is in its state: it runs or ran after its predecessors allowed it to, or it
  // was skipped on a need that did not pass.
  ghost predicate Explained(gate: Gate, execute: Executor, m: Machine) {
    && gate.id in m.states
    && (m.states[gate.id] == Running ==> PredecessorsReady(gate, m.states))
    && (m.states[gate.id].Settled? ==>
          && gate.id in m.results && m.results[gate.id].status == m.states[gate.id].status
          && (Executed(gate, execute, m) || SkippedOnNeed(gate, m)))
  }

  ghost predicate Executed(gate: Gate, execute: Executor, m: Machine) {
    gate.id in m.results && m.results[gate.id] == execute(gate) && PredecessorsReady(gate, m.states)
  }

  ghost predicate SkippedOnNeed(gate: Gate, m: Machine) {
    && gate.id in m.states && m.states[gate.id] == Settled(Skipped)
    && exists d :: d in gate.needs && HasFailed(m.states, d)
  }

  ghost predicate RunningMatches(gates: seq<Gate>, m: Machine) {
    && Distinct(m.running)
    && (forall gate :: gate in m.running ==> gate in gates)
    && (forall gate :: gate in gates && gate.id in m.states ==> (m.states[gate.id] == Running <==> gate in m.running))
  }

  ghost predicate KeysMatch(gates: seq<Gate>, m: Machine) {
    && m.states.Keys == ById(gates).Keys
    && (forall id :: id in m.results <==> HasSettled(m.states, id))
  }

  ghost predicate AllExplained(gates: seq<Gate>, execute: Executor, m: Machine) {
    forall gate :: gate in gates ==> Explained(gate, execute, m)
  }

  ghost predicate Consistent(gates: seq<Gate>, maxActive: nat, execute: Executor, m: Machine) {
    match m
    case Machine(_, running, _) =>
      && KeysMatch(gates, m)
      && RunningMatches(gates, m)
      && AllExplained(gates, execute, m)
      && |running| <= maxActive
  }

  // States only move forward: pending, running, settled; a settled gate keeps status and result.
  ghost predicate Advances(m: Machine, n: Machine) {
    match m
    case Machine(states, _, results) =>
      && (forall id :: id in states ==> id in n.states)
      && (forall id :: id in states && states[id] == Running ==> n.states[id] != Pending)
      && (forall id :: HasSettled(states, id) ==> n.states[id] == states[id])
      && (forall id :: id in results ==> id in n.results && n.results[id] == results[id])
  }

  // ---- One step ----

  lemma SameGate(gates: seq<Gate>, g: Gate, h: Gate)
    requires UniqueIds(gates) && g in gates && h in gates && g.id == h.id
    ensures g == h
  {
    var i :| 0 <= i < |gates| && gates[i] == g;
    var j :| 0 <= j < |gates| && gates[j] == h;
  }

  lemma AdvanceKeepsExplained(gate: Gate, execute: Executor, m: Machine, n: Machine)
    requires Explained(gate, execute, m) && Advances(m, n)
    requires n.states[gate.id] == m.states[gate.id]
    ensures Explained(gate, execute, n)
  {
    if SkippedOnNeed(gate, m) {
      var d :| d in gate.needs && HasFailed(m.states, d);
      assert HasFailed(n.states, d);
    }
  }

  // A step that moves only `gate` explains every gate once it explains `gate`.
  lemma MovedGateExplained(gates: seq<Gate>, execute: Executor, gate: Gate, m: Machine, n: Machine)
    requires UniqueIds(gates) && gate in gates
    requires AllExplained(gates, execute, m) && Advances(m, n) && Explained(gate, execute, n)
    requires forall id :: id in m.states && id != gate.id ==> n.states[id] == m.states[id]
    ensures AllExplained(gates, execute, n)
  {
    forall h | h in gates
      ensures Explained(h, execute, n)
    {
      if h.id == gate.id {
        SameGate(gates, gate, h);
      } else {
        AdvanceKeepsExplained(h, execute, m, n);
      }
    }
  }

  lemma StartStep(gates: seq<Gate>, maxActive: nat, execute: Executor, m: Machine, n: Machine)
    requires UniqueIds(gates) && Consistent(gates, maxActive, execute, m) && Starts(gates, maxActive, m, n)
    ensures Consistent(gates, maxActive, execute, n) && Advances(m, n)
  {
    var gate := FirstReady(gates, m.states).value;
    assert Ready(gate, m.states);
    assert Advances(m, n);
    MovedGateExplained(gates, execute, gate, m, n);
    forall h | h in gates && h.id in n.states
      ensures n.states[h.id] == Running <==> h in n.running
    {
      if h.id == gate.id { SameGate(gates, gate, h); }
    }
  }

  lemma RemoveAt<T>(s: seq<T>, i: nat)
    requires i < |s| && Distinct(s)
    ensures Distinct(s[..i] + s[i + 1..])
    ensures forall x :: x in s[..i] + s[i + 1..] <==> x in s && x != s[i]
  {
    var t := s[..i] + s[i + 1..];
    forall x | x in s && x != s[i] ensures x in t {
      var k :| 0 <= k < |s| && s[k] == x;
      assert t[if k < i then k else k - 1] == x;
    }
  }

  lemma SettleStep(gates: seq<Gate>, maxActive: nat, execute: Executor, m: Machine, n: Machine, i: nat)
    requires UniqueIds(gates) && Consistent(gates, maxActive, execute, m)
    requires Settles(gates, maxActive, execute, m, n, i)
    ensures Consistent(gates, maxActive, execute, n) && Advances(m, n)
  {
    var gate := m.running[i];
    assert gate in gates && Explained(gate, execute, m);
    RemoveAt(m.running, i);
    assert Advances(m, n);
    MovedGateExplained(gates, execute, gate, m, n);
    forall h | h in gates && h.id in n.states
      ensures n.states[h.id] == Running <==> h in n.running
    {
      if h.id == gate.id { SameGate(gates, gate, h); }
    }
  }

  lemma SkipStep(gates: seq<Gate>, maxActive: nat, execute: Executor, m: Machine, n: Machine)
    requires UniqueIds(gates) && Consistent(gates, maxActive, execute, m) && Skips(gates, maxActive, m, n)
    ensures Consistent(gates, maxActive, execute, n) && Advances(m, n)
  {
    var gate := FirstBlocked(gates, m.states).value;
    var d :| d in gate.needs && HasFailed(m.states, d);
    assert HasFailed(n.states, d);
    assert Advances(m, n);
    MovedGateExplained(gates, execute, gate, m, n);
  }

  lemma StepKeepsConsistent(gates: seq<Gate>, maxActive: nat, execute: Executor, m: Machine, n: Machine)
    requires UniqueIds(gates) && Consistent(gates, maxActive, execute, m) && Next(gates, maxActive, execute, m, n)
    ensures Consistent(gates, maxActive, execute, n) && Advances(m, n)
  {
    if Starts(gates, maxActive, m, n) {
      StartStep(gates, maxActive, execute, m, n);
    } else if Skips(gates, maxActive, m, n) {
      SkipStep(gates, maxActive, execute, m, n);
    } else {
      var i: nat :| Settles(gates, maxActive, execute, m, n, i);
      SettleStep(gates, maxActive, execute, m, n, i);
    }
  }

  lemma InitialConsistent(gates: seq<Gate>, maxActive: nat, execute: Executor)
    ensures Consistent(gates, maxActive, execute, Initial(gates))
  {
    forall gate | gate in gates ensures gate.id in ById(gates) {
      var i :| 0 <= i < |gates| && gates[i] == gate;
      ByIdKeys(gates, gate.id);
    }
  }

  lemma AdvancesTransitive(a: Machine, b: Machine, c: Machine)
    requires Advances(a, b) && Advances(b, c)
    ensures Advances(a, c)
  {
    forall id | HasSettled(a.states, id) ensures c.states[id] == a.states[id] {
      assert HasSettled(b.states, id);
    }
    forall id | id in a.results ensures id in c.results && c.results[id] == a.results[id] {
      assert id in b.results;
    }
  }

  // ---- Whole runs ----

  // Every machine a run passes through is consistent: what runs had all needs passed and all
  // `after` gates settled, at most maxActive run at once, and every result is explained.
  lemma {:induction false} RunIsConsistent(gates: seq<Gate>, maxActive: nat, execute: Executor, run: seq<Machine>,
                                           k: nat)
    requires UniqueIds(gates) && IsRun(gates, maxActive, execute, run) && k < |run|
    ensures Consistent(gates, maxActive, execute, run[k])
  {
    if k == 0 {
      InitialConsistent(gates, maxActive, execute);
    } else {
      RunIsConsistent(gates, maxActive, execute, run, k - 1);
      assert StepAt(gates, maxActive, execute, run, k - 1);
      StepKeepsConsistent(gates, maxActive, execute, run[k - 1], run[k]);
    }
  }

  lemma RunStepAdvances(gates: seq<Gate>, maxActive: nat, execute: Executor, run: seq<Machine>, k: nat)
    requires UniqueIds(gates) && IsRun(gates, maxActive, execute, run) && k + 1 < |run|
    ensures Advances(run[k], run[k + 1])
  {
    RunIsConsistent(gates, maxActive, execute, run, k);
    assert StepAt(gates, maxActive, execute, run, k);
    StepKeepsConsistent(gates, maxActive, execute, run[k], run[k + 1]);
  }

  // Nothing is undone later in a run: settled statuses and results are final.
  lemma {:induction false} RunAdvances(gates: seq<Gate>, maxActive: nat, execute: Executor, run: seq<Machine>,
                                       j: nat, k: nat)
    requires UniqueIds(gates) && IsRun(gates, maxActive, execute, run) && j <= k < |run|
    ensures Advances(run[j], run[k])
    decreases k - j
  {
    if j < k {
      RunAdvances(gates, maxActive, execute, run, j, k - 1);
      RunStepAdvances(gates, maxActive, execute, run, k - 1);
      AdvancesTransitive(run[j], run[k - 1], run[k]);
    }
  }

  ghost predicate StartsAt(gates: seq<Gate>, maxActive: nat, run: seq<Machine>, k: nat, gate: Gate) {
    && k + 1 < |run| && Starts(gates, maxActive, run[k], run[k + 1])
    && FirstReady(gates, run[k].states) == Some(gate)
  }

  // Each gate is started at most once, and from its start on, in every later machine, all its
  // needs have passed and all its `after` gates have settled.
  lemma StartedOnceWhenAllowed(gates: seq<Gate>, maxActive: nat, execute: Executor, run: seq<Machine>,
                               j: nat, k: nat, gate: Gate)
    requires UniqueIds(gates) && IsRun(gates, maxActive, execute, run) && j < k < |run|
    requires StartsAt(gates, maxActive, run, j, gate)
    ensures !StartsAt(gates, maxActive, run, k, gate)
    ensures PredecessorsReady(gate, run[j].states) && PredecessorsReady(gate, run[k].states)
    ensures gate.id in run[k].states && run[k].states[gate.id] != Pending
  {
    assert Ready(gate, run[j].states);
    RunAdvances(gates, maxActive, execute, run, j, k);
    RunAdvances(gates, maxActive, execute, run, j + 1, k);
    assert StartsAt(gates, maxActive, run, k, gate) ==> Ready(gate, run[k].states);
  }
}
