// What the results of a whole run say, read off the states the run goes through.
module GateReports {
  import opened Options
  import opened Selections
  import opened GateGraph
  import opened GateMachine
  import opened GateLiveness
  import opened GateVerdicts

  // The gate has settled, but did not pass.
  ghost predicate Lost(states: States, id: string) {
    id in states && states[id].Settled? && states[id].status != Passed
  }

  ghost predicate MayStart(gate: Gate, states: States) {
    && gate.id in states && states[gate.id] == Pending
    && (forall d :: d in gate.needs ==> d in states && states[d] == Settled(Passed))
    && (forall d :: d in gate.after ==> d in states && states[d].Settled?)
  }

  ghost predicate WaitsOnLost(gate: Gate, states: States) {
    && gate.id in states && states[gate.id] == Pending
    && exists d :: d in gate.needs && Lost(states, d)
  }

  // The gate is the first of the list with the property.
  ghost predicate IsFirst(gates: seq<Gate>, p: Gate -> bool, gate: Gate) {
    exists i :: 0 <= i < |gates| && gates[i] == gate && p(gate) && forall j :: 0 <= j < i ==> !p(gates[j])
  }

  lemma FirstWhereIsFirst(gates: seq<Gate>, p: Gate -> bool, q: Gate -> bool, gate: Gate)
    requires FirstWhere(gates, p) == Some(gate) && forall g :: p(g) <==> q(g)
    ensures IsFirst(gates, q, gate)
  {
    var i := IndexWhere(gates, p, 0);
    assert gates[i] == gate;
  }

  // A start takes the first gate in aggregate order that may start.
  lemma StartTakesFirst(gates: seq<Gate>, maxActive: nat, m: Machine, n: Machine) returns (gate: Gate)
    requires Starts(gates, maxActive, m, n)
    ensures |m.running| < maxActive && IsFirst(gates, g => MayStart(g, m.states), gate)
    ensures n == Machine(m.states[gate.id := Running], m.running + [gate], m.results)
  {
    gate := FirstReady(gates, m.states).value;
    FirstWhereIsFirst(gates, (g: Gate) => Ready(g, m.states), g => MayStart(g, m.states), gate);
  }

  // Gate and result of a skip: nothing runs and nothing may start, the gate is the first pending
  // one with a lost need, and its result lists exactly the lost needs, in their order.
  ghost predicate IsSkip(gates: seq<Gate>, m: Machine, gate: Gate, r: GateResult) {
    && m.running == []
    && (forall g :: g in gates ==> !MayStart(g, m.states))
    && IsFirst(gates, g => WaitsOnLost(g, m.states), gate)
    && r.gate == gate && r.status == Skipped && r.error == "dependency failed or skipped"
    && r.failedDeps != [] && IsSelection(gate.needs, d => Lost(m.states, d), r.failedDeps)
  }

  lemma SkipTakesFirst(gates: seq<Gate>, maxActive: nat, m: Machine, n: Machine) returns (gate: Gate)
    requires maxActive > 0 && Skips(gates, maxActive, m, n)
    ensures gate.id in n.results && IsSkip(gates, m, gate, n.results[gate.id])
    ensures n == Machine(m.states[gate.id := Settled(Skipped)], [], m.results[gate.id := n.results[gate.id]])
  {
    gate := FirstBlocked(gates, m.states).value;
    FirstWhereIsFirst(gates, (g: Gate) => Blocked(g, m.states), g => WaitsOnLost(g, m.states), gate) by {
      forall g ensures Blocked(g, m.states) <==> WaitsOnLost(g, m.states) {
        if Blocked(g, m.states) {
          var d :| d in g.needs && HasFailed(m.states, d);
          assert Lost(m.states, d);
        }
        if WaitsOnLost(g, m.states) {
          var d :| d in g.needs && Lost(m.states, d);
          assert HasFailed(m.states, d);
        }
      }
    }
    forall g | g in gates ensures !MayStart(g, m.states) { assert !Ready(g, m.states); }
    SkipResultLists(gate, m.states);
  }

  lemma SkipResultLists(gate: Gate, states: States)
    requires Blocked(gate, states)
    ensures var r := SkipResult(gate, states);
      r.failedDeps != [] && IsSelection(gate.needs, d => Lost(states, d), r.failedDeps)
  {
    var failed := (d: string) => HasFailed(states, d);
    SelectIsSelection(gate.needs, failed);
    var d :| d in gate.needs && HasFailed(states, d);
    assert d in Select(gate.needs, failed);
    SameSelection(gate.needs, failed, d => Lost(states, d), Select(gate.needs, failed));
  }

  // A settlement hands over what the executor reports.
  lemma SettleTakesReport(gates: seq<Gate>, maxActive: nat, execute: Executor, m: Machine, n: Machine, i: nat)
    requires Settles(gates, maxActive, execute, m, n, i)
    ensures |m.running| >= maxActive || forall g :: g in gates ==> !MayStart(g, m.states)
    ensures var gate := m.running[i];
      n == Machine(m.states[gate.id := Settled(execute(gate).status)], m.running[..i] + m.running[i + 1..],
                   m.results[gate.id := execute(gate)])
  {
    if |m.running| < maxActive {
      forall g | g in gates ensures !MayStart(g, m.states) { assert !Ready(g, m.states); }
    }
  }

  // ---- Whole runs ----

  // Up to its n-th machine the run has skipped the gate with this result.
  ghost predicate SkippedIn(gates: seq<Gate>, run: seq<Machine>, n: nat, gate: Gate, r: GateResult) {
    exists k: nat :: k < n < |run| && IsSkip(gates, run[k], gate, r)
  }

  lemma ExecutedStays(gate: Gate, execute: Executor, m: Machine, n: Machine)
    requires Executed(gate, execute, m) && Advances(m, n)
    ensures Executed(gate, execute, n)
  {
    forall d | d in gate.needs ensures HasPassed(n.states, d) { assert HasSettled(m.states, d); }
    forall d | d in gate.after ensures HasSettled(n.states, d) { assert HasSettled(m.states, d); }
  }

  lemma JustSettled(gates: seq<Gate>, maxActive: nat, execute: Executor, run: seq<Machine>, k: nat, gate: Gate)
    requires UniqueIds(gates) && maxActive > 0 && StepAt(gates, maxActive, execute, run, k) && gate in gates
    requires Consistent(gates, maxActive, execute, run[k]) && Advances(run[k], run[k + 1])
    requires !HasSettled(run[k].states, gate.id) && HasSettled(run[k + 1].states, gate.id)
    ensures gate.id in run[k + 1].results
    ensures Executed(gate, execute, run[k + 1]) || SkippedIn(gates, run, k + 1, gate, run[k + 1].results[gate.id])
  {
    var m, n := run[k], run[k + 1];
    if Skips(gates, maxActive, m, n) {
      var skipped := SkipTakesFirst(gates, maxActive, m, n);
      SameGate(gates, gate, skipped);
    } else if i: nat :| Settles(gates, maxActive, execute, m, n, i) {
      assert m.running[i] in m.running && Explained(m.running[i], execute, m);
      SameGate(gates, gate, m.running[i]);
      JustExecuted(gate, execute, m, n);
    }
  }

  lemma JustExecuted(gate: Gate, execute: Executor, m: Machine, n: Machine)
    requires PredecessorsReady(gate, m.states) && Advances(m, n)
    requires gate.id in n.results && n.results[gate.id] == execute(gate)
    ensures Executed(gate, execute, n)
  {
    forall d | d in gate.needs ensures HasPassed(n.states, d) { assert HasSettled(m.states, d); }
    forall d | d in gate.after ensures HasSettled(n.states, d) { assert HasSettled(m.states, d); }
  }

  lemma {:induction false} ReportedSoFar(gates: seq<Gate>, maxActive: nat, execute: Executor, run: seq<Machine>, n: nat,
                                         gate: Gate)
    requires UniqueIds(gates) && maxActive > 0 && IsRun(gates, maxActive, execute, run) && n < |run| && gate in gates
    requires HasSettled(run[n].states, gate.id)
    ensures gate.id in run[n].results
    ensures Executed(gate, execute, run[n]) || SkippedIn(gates, run, n, gate, run[n].results[gate.id])
  {
    if n > 0 {
      RunIsConsistent(gates, maxActive, execute, run, n - 1);
      RunAdvances(gates, maxActive, execute, run, n - 1, n);
      assert StepAt(gates, maxActive, execute, run, n - 1);
      if HasSettled(run[n - 1].states, gate.id) {
        ReportedSoFar(gates, maxActive, execute, run, n - 1, gate);
        if Executed(gate, execute, run[n - 1]) { ExecutedStays(gate, execute, run[n - 1], run[n]); }
      } else {
        JustSettled(gates, maxActive, execute, run, n - 1, gate);
      }
    }
  }

  ghost predicate IsComplete(gates: seq<Gate>, maxActive: nat, execute: Executor, run: seq<Machine>) {
    IsRun(gates, maxActive, execute, run) && AllSettled(run[|run| - 1])
  }

  // In a complete run a gate whose needs are all judged passed has the report of its executor.
  // Any other has the result of a skip the run went through, and none of the gates listed in it
  // is judged passed.
  lemma ResultsAreExplained(gates: seq<Gate>, maxActive: nat, execute: Executor, run: seq<Machine>, gate: Gate)
    requires ValidGraph(gates) && maxActive > 0 && IsComplete(gates, maxActive, execute, run) && gate in gates
    ensures var results := run[|run| - 1].results;
      gate.id in results &&
      if forall d :: d in gate.needs ==> d in ById(gates) && Verdict(gates, execute, d) == Passed
      then results[gate.id] == execute(gate)
      else
        && SkippedIn(gates, run, |run| - 1, gate, results[gate.id])
        && forall d :: d in results[gate.id].failedDeps ==>
             d in gate.needs && d in ById(gates) && Verdict(gates, execute, d) != Passed
  {
    var end := |run| - 1;
    RunIsConsistent(gates, maxActive, execute, run, end);
    IdOfGate(gates, gate);
    ReportedSoFar(gates, maxActive, execute, run, end, gate);
    NeedsAsJudged(gates, maxActive, execute, run[end], gate);
    if SkippedIn(gates, run, end, gate, run[end].results[gate.id]) {
      var k: nat :| k < end && IsSkip(gates, run[k], gate, run[end].results[gate.id]);
      RunAdvances(gates, maxActive, execute, run, k, end);
      LostIsJudged(gates, execute, run[k], run[end], gate, run[end].results[gate.id]);
    }
  }

  lemma NeedsAsJudged(gates: seq<Gate>, maxActive: nat, execute: Executor, m: Machine, gate: Gate)
    requires ValidGraph(gates) && Consistent(gates, maxActive, execute, m) && AllSettled(m) && gate in gates
    ensures forall d :: d in gate.needs ==> d in ById(gates) && d in m.states
                                            && m.states[d] == Settled(Verdict(gates, execute, d))
  {
    forall d | d in gate.needs
      ensures d in ById(gates) && d in m.states && m.states[d] == Settled(Verdict(gates, execute, d))
    {
      IdOfGate(gates, gate);
      PredecessorsAreShallower(gates, gate.id);
      FinalStateIsVerdict(gates, maxActive, execute, m, d);
    }
  }

  lemma LostIsJudged(gates: seq<Gate>, execute: Executor, m: Machine, end: Machine, gate: Gate, r: GateResult)
    requires ValidGraph(gates) && Advances(m, end) && IsSkip(gates, m, gate, r)
    requires forall d :: d in gate.needs ==> d in ById(gates) && d in end.states
                                             && end.states[d] == Settled(Verdict(gates, execute, d))
    ensures forall d :: d in r.failedDeps ==>
              d in gate.needs && d in ById(gates) && Verdict(gates, execute, d) != Passed
    ensures exists d :: d in gate.needs && d in ById(gates) && Verdict(gates, execute, d) != Passed
  {
    var lost := d => Lost(m.states, d);
    forall d | d in r.failedDeps ensures d in gate.needs && d in ById(gates) && Verdict(gates, execute, d) != Passed {
      SelectedIsKept(gate.needs, lost, r.failedDeps, d);
      assert HasSettled(m.states, d);
    }
    assert r.failedDeps[0] in r.failedDeps;
  }
}
