// The scheduler never stalls and always finishes: while a gate is unsettled some step is
// possible, and every step uses up part of a fixed budget.
module GateLiveness {
  import opened Digraphs
  import opened GateGraph
  import opened GateMachine

  function PendingIds(states: States): set<string> {
    set id | id in states && states[id] == Pending
  }

  ghost predicate AllSettled(m: Machine) {
    forall id :: id in m.states ==> m.states[id].Settled?
  }

  lemma KnownPredecessor(gates: seq<Gate>, gate: Gate, d: string)
    requires AllKnown(gates) && gate in gates && d in Predecessors(gate)
    ensures d in ById(gates)
  {
    assert NeedsKnown(gates, gate) && AfterKnown(gates, gate);
  }

  lemma GateOfId(gates: seq<Gate>, id: string) returns (gate: Gate)
    requires id in ById(gates)
    ensures gate == ById(gates)[id] && gate in gates && gate.id == id && GraphOf(gates)[id] == Predecessors(gate)
  {
    ByIdKeys(gates, id);
    gate := ById(gates)[id];
  }

  // The throw for a stalled graph cannot happen: when nothing runs and nothing is ready, a
  // pending gate has a need that failed or was skipped.
  lemma NeverStalls(gates: seq<Gate>, maxActive: nat, execute: Executor, m: Machine)
    requires ValidGraph(gates) && Consistent(gates, maxActive, execute, m)
    requires m.running == [] && FirstReady(gates, m.states).None? && PendingIds(m.states) != {}
    ensures FirstBlocked(gates, m.states).Some?
  {
    var graph, pending := GraphOf(gates), PendingIds(m.states);
    AcyclicHasSink(graph, pending);
    var id :| id in pending && !Continues(graph, pending, id);
    var gate := GateOfId(gates, id);
    assert !Ready(gate, m.states);
    forall d | d in Predecessors(gate) ensures HasSettled(m.states, d) {
      KnownPredecessor(gates, gate, d);
      assert d !in pending;
      var other := GateOfId(gates, d);
      assert other !in m.running;
    }
    forall d | d in gate.after ensures HasSettled(m.states, d) {
      assert d in Predecessors(gate);
    }
    var d :| d in gate.needs && !HasPassed(m.states, d);
    assert d in Predecessors(gate);
    assert HasFailed(m.states, d);
    assert Blocked(gate, m.states);
  }

  lemma IdleHasPending(gates: seq<Gate>, maxActive: nat, execute: Executor, m: Machine)
    requires Consistent(gates, maxActive, execute, m) && m.running == [] && !AllSettled(m)
    ensures PendingIds(m.states) != {}
  {
    var id :| id in m.states && !m.states[id].Settled?;
    var gate := GateOfId(gates, id);
    assert gate !in m.running;
    assert id in PendingIds(m.states);
  }

  lemma Progress(gates: seq<Gate>, maxActive: nat, execute: Executor, m: Machine) returns (n: Machine)
    requires ValidGraph(gates) && maxActive > 0 && Consistent(gates, maxActive, execute, m)
    requires !AllSettled(m)
    ensures Next(gates, maxActive, execute, m, n)
  {
    if CanStart(gates, maxActive, m) {
      n := StartGate(m, FirstReady(gates, m.states).value);
      assert Starts(gates, maxActive, m, n);
    } else if m.running != [] {
      n := SettleGate(m, 0, execute);
      assert Settles(gates, maxActive, execute, m, n, 0);
    } else {
      IdleHasPending(gates, maxActive, execute, m);
      NeverStalls(gates, maxActive, execute, m);
      n := SkipGate(m, FirstBlocked(gates, m.states).value);
      assert Skips(gates, maxActive, m, n);
    }
  }

  // Two units for a pending gate, one for a running gate.
  function Budget(m: Machine): nat {
    2 * |PendingIds(m.states)| + |m.running|
  }

  lemma LosesPending(states: States, id: string, state: GateState)
    requires id in states && state != Pending
    ensures PendingIds(states[id := state]) == PendingIds(states) - {id}
  {
  }

  lemma SettlingKeepsPending(gates: seq<Gate>, maxActive: nat, execute: Executor, m: Machine, i: nat)
    requires Consistent(gates, maxActive, execute, m) && i < |m.running|
    ensures PendingIds(SettleGate(m, i, execute).states) == PendingIds(m.states)
  {
    var gate := m.running[i];
    assert gate in gates && Explained(gate, execute, m);
    LosesPending(m.states, gate.id, Settled(execute(gate).status));
  }

  lemma StepSpendsBudget(gates: seq<Gate>, maxActive: nat, execute: Executor, m: Machine, n: Machine)
    requires Consistent(gates, maxActive, execute, m) && Next(gates, maxActive, execute, m, n)
    ensures Budget(n) < Budget(m)
  {
    if Starts(gates, maxActive, m, n) {
      var gate := FirstReady(gates, m.states).value;
      assert Ready(gate, m.states);
      LosesPending(m.states, gate.id, Running);
    } else if Skips(gates, maxActive, m, n) {
      LosesPending(m.states, FirstBlocked(gates, m.states).value.id, Settled(Skipped));
    } else {
      var i: nat :| Settles(gates, maxActive, execute, m, n, i);
      SettlingKeepsPending(gates, maxActive, execute, m, i);
    }
  }

  lemma {:induction false} IdsAsMany(gates: seq<Gate>)
    requires UniqueIds(gates)
    ensures |ById(gates)| == |gates|
  {
    if gates != [] {
      var front, last := gates[..|gates| - 1], gates[|gates| - 1];
      IdsAsMany(front);
      ByIdKeys(front, last.id);
      assert ById(gates).Keys == ById(front).Keys + {last.id};
    }
  }

  lemma {:induction false} RunSpendsBudget(gates: seq<Gate>, maxActive: nat, execute: Executor, run: seq<Machine>,
                                           k: nat)
    requires UniqueIds(gates) && IsRun(gates, maxActive, execute, run) && k < |run|
    ensures k + Budget(run[k]) <= 2 * |gates|
  {
    if k == 0 {
      IdsAsMany(gates);
      assert PendingIds(Initial(gates).states) == ById(gates).Keys;
    } else {
      RunSpendsBudget(gates, maxActive, execute, run, k - 1);
      RunIsConsistent(gates, maxActive, execute, run, k - 1);
      assert StepAt(gates, maxActive, execute, run, k - 1);
      StepSpendsBudget(gates, maxActive, execute, run[k - 1], run[k]);
    }
  }

  ghost predicate CanStep(gates: seq<Gate>, maxActive: nat, execute: Executor, m: Machine) {
    exists n {:trigger Starts(gates, maxActive, m, n)} :: Next(gates, maxActive, execute, m, n)
  }

  // Every run is finite, at most two steps a gate, and a run that cannot be continued has
  // settled every gate with a result: neither internal error of the scheduler is reachable.
  lemma RunsFinish(gates: seq<Gate>, maxActive: nat, execute: Executor, run: seq<Machine>)
    requires ValidGraph(gates) && maxActive > 0 && IsRun(gates, maxActive, execute, run)
    ensures |run| <= 2 * |gates| + 1
    ensures AllSettled(run[|run| - 1]) || CanStep(gates, maxActive, execute, run[|run| - 1])
    ensures AllSettled(run[|run| - 1]) ==> run[|run| - 1].results.Keys == ById(gates).Keys
  {
    var last := run[|run| - 1];
    RunSpendsBudget(gates, maxActive, execute, run, |run| - 1);
    RunIsConsistent(gates, maxActive, execute, run, |run| - 1);
    if AllSettled(last) {
      forall id | id in ById(gates) ensures id in last.results {
        assert HasSettled(last.states, id);
      }
    } else {
      var n := Progress(gates, maxActive, execute, last);
    }
  }
}
