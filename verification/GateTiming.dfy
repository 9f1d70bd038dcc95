// The scheduler is greedy: it never leaves a slot empty while a gate is ready. On a clock, in
// every run that skips nothing, the makespan therefore obeys the bound for greedy scheduling.
module GateTiming {
  import opened Digraphs
  import opened GateGraph
  import opened GateMachine
  import opened GateLiveness

  type Duration = Gate -> nat

  // The machine with a clock and the moment at which each started gate is due to settle.
  datatype Timed = Timed(m: Machine, now: nat, due: map<string, nat>)

  ghost predicate EarliestDue(t: Timed, i: nat) {
    && i < |t.m.running|
    && t.m.running[i].id in t.due
    && forall gate :: gate in t.m.running && gate.id in t.due ==> t.due[t.m.running[i].id] <= t.due[gate.id]
  }

  // Starting and skipping take no time; waiting ends when the first running gate is due.
  ghost predicate TimedNext(gates: seq<Gate>, maxActive: nat, execute: Executor, dur: Duration, t: Timed, u: Timed) {
    || TimedStart(gates, maxActive, dur, t, u)
    || (Skips(gates, maxActive, t.m, u.m) && u.now == t.now && u.due == t.due)
    || exists i: nat :: TimedSettle(gates, maxActive, execute, t, u, i)
  }

  ghost predicate TimedStart(gates: seq<Gate>, maxActive: nat, dur: Duration, t: Timed, u: Timed) {
    && Starts(gates, maxActive, t.m, u.m) && u.now == t.now
    && var gate := FirstReady(gates, t.m.states).value; u.due == t.due[gate.id := t.now + dur(gate)]
  }

  ghost predicate TimedSettle(gates: seq<Gate>, maxActive: nat, execute: Executor, t: Timed, u: Timed, i: nat) {
    && Settles(gates, maxActive, execute, t.m, u.m, i) && EarliestDue(t, i)
    && u.now == t.due[t.m.running[i].id] && u.due == t.due
  }

  ghost predicate TimedStepAt(gates: seq<Gate>, maxActive: nat, execute: Executor, dur: Duration, run: seq<Timed>,
                              k: nat) {
    k + 1 < |run| && TimedNext(gates, maxActive, execute, dur, run[k], run[k + 1])
  }

  ghost predicate IsTimedRun(gates: seq<Gate>, maxActive: nat, execute: Executor, dur: Duration, run: seq<Timed>) {
    && |run| > 0 && run[0] == Timed(Initial(gates), 0, map[])
    && forall k: nat :: k + 1 < |run| ==> TimedStepAt(gates, maxActive, execute, dur, run, k)
  }

  // ---- Amounts of work ----

  function TotalWork(gates: seq<Gate>, dur: Duration): nat {
    if gates == [] then 0 else dur(gates[0]) + TotalWork(gates[1..], dur)
  }

  function PendingWork(gates: seq<Gate>, states: States, dur: Duration): nat {
    if gates == [] then 0
    else (if IsPending(states, gates[0]) then dur(gates[0]) else 0) + PendingWork(gates[1..], states, dur)
  }

  function Remaining(running: seq<Gate>, due: map<string, nat>, now: nat): int {
    if running == [] then 0
    else (if running[0].id in due then due[running[0].id] - now else 0) + Remaining(running[1..], due, now)
  }

  // Total duration of the gates on a chain of predecessors.
  ghost function Weight(gates: seq<Gate>, dur: Duration, chain: seq<string>): nat {
    if chain == [] then 0
    else (if chain[0] in ById(gates) then dur(ById(gates)[chain[0]]) else 0) + Weight(gates, dur, chain[1..])
  }

  lemma {:induction false} PendingWorkDrops(gates: seq<Gate>, states: States, dur: Duration, gate: Gate,
                                            state: GateState)
    requires UniqueIds(gates) && gate.id in states && state != Pending
    requires forall h :: h in gates && h.id == gate.id ==> h == gate
    ensures PendingWork(gates, states[gate.id := state], dur)
         == PendingWork(gates, states, dur) - (if gate in gates && IsPending(states, gate) then dur(gate) else 0)
  {
    if gates != [] {
      var rest := gates[1..];
      assert gates == [gates[0]] + rest;
      PendingWorkDrops(rest, states, dur, gate, state);
      if gates[0] == gate {
        assert gate !in rest;
      }
    }
  }

  lemma {:induction false} RemainingSnoc(running: seq<Gate>, due: map<string, nat>, now: nat, gate: Gate, at: nat)
    requires forall h :: h in running ==> h.id != gate.id
    ensures Remaining(running + [gate], due[gate.id := at], now) == Remaining(running, due, now) + at - now
  {
    if running == [] {
      assert running + [gate] == [gate];
    } else {
      assert (running + [gate])[1..] == running[1..] + [gate];
      RemainingSnoc(running[1..], due, now, gate, at);
    }
  }

  lemma {:induction false} RemainingWithout(running: seq<Gate>, due: map<string, nat>, now: nat, i: nat)
    requires i < |running| && running[i].id in due && due[running[i].id] == now
    ensures Remaining(running[..i] + running[i + 1..], due, now) == Remaining(running, due, now)
  {
    if i == 0 {
      assert running[..0] + running[1..] == running[1..];
    } else {
      assert (running[..i] + running[i + 1..])[1..] == running[1..][..i - 1] + running[1..][i..];
      RemainingWithout(running[1..], due, now, i - 1);
    }
  }

  lemma {:induction false} RemainingLater(running: seq<Gate>, due: map<string, nat>, now: nat, later: nat)
    requires forall gate :: gate in running ==> gate.id in due
    ensures Remaining(running, due, later) == Remaining(running, due, now) - |running| * (later - now)
  {
    if running != [] {
      RemainingLater(running[1..], due, now, later);
    }
  }

  // ---- The greedy invariant ----

  // Some chain of predecessors from `gate` on lasts at least `length`.
  ghost predicate ChainLasts(gates: seq<Gate>, dur: Duration, gate: Gate, length: int) {
    exists chain: seq<string> ::
        IsWalk(GraphOf(gates), chain) && chain[0] == gate.id && length <= Weight(gates, dur, chain)
  }

  // At most `idle` time units have passed with an empty slot: a running gate was held up, and
  // an unstarted ready gate is held up, by a chain that explains every one of them.
  ghost predicate IdleExplained(gates: seq<Gate>, dur: Duration, t: Timed, idle: nat, gate: Gate) {
    && (Ready(gate, t.m.states) ==> ChainLasts(gates, dur, gate, idle + dur(gate)))
    && (gate in t.m.running ==>
          && gate.id in t.due && t.now <= t.due[gate.id]
          && ChainLasts(gates, dur, gate, idle + t.due[gate.id] - t.now))
  }

  ghost predicate WorkAccounted(gates: seq<Gate>, maxActive: nat, dur: Duration, t: Timed, idle: nat) {
    maxActive * t.now + Remaining(t.m.running, t.due, t.now) + PendingWork(gates, t.m.states, dur)
      <= TotalWork(gates, dur) + (maxActive - 1) * idle
  }

  ghost predicate GreedySoFar(gates: seq<Gate>, maxActive: nat, dur: Duration, t: Timed, idle: nat) {
    match t
    case Timed(_, _, _) =>
      && WorkAccounted(gates, maxActive, dur, t, idle)
      && (forall gate :: gate in gates ==> IdleExplained(gates, dur, t, idle, gate))
      && (idle == 0 || exists gate :: gate in gates && ChainLasts(gates, dur, gate, idle))
  }

  lemma SingleChain(gates: seq<Gate>, dur: Duration, gate: Gate)
    requires UniqueIds(gates) && gate in gates
    ensures ChainLasts(gates, dur, gate, dur(gate))
  {
    var i :| 0 <= i < |gates| && gates[i] == gate;
    ByIdOfGate(gates, i);
    assert IsWalk(GraphOf(gates), [gate.id]);
    assert Weight(gates, dur, [gate.id]) == dur(gate) + Weight(gates, dur, []);
  }

  lemma ChainGrows(gates: seq<Gate>, dur: Duration, gate: Gate, p: Gate, length: nat)
    requires UniqueIds(gates) && gate in gates && p.id in Predecessors(gate)
    requires ChainLasts(gates, dur, p, length)
    ensures ChainLasts(gates, dur, gate, length + dur(gate))
  {
    var chain :| IsWalk(GraphOf(gates), chain) && chain[0] == p.id && length <= Weight(gates, dur, chain);
    var i :| 0 <= i < |gates| && gates[i] == gate;
    ByIdOfGate(gates, i);
    WalkCons(GraphOf(gates), gate.id, chain);
    assert ([gate.id] + chain)[1..] == chain;
    assert Weight(gates, dur, [gate.id] + chain) == dur(gate) + Weight(gates, dur, chain);
  }

  lemma StartKeepsWork(gates: seq<Gate>, maxActive: nat, execute: Executor, dur: Duration, t: Timed, u: Timed,
                       idle: nat)
    requires UniqueIds(gates) && Consistent(gates, maxActive, execute, t.m) && TimedStart(gates, maxActive, dur, t, u)
    requires WorkAccounted(gates, maxActive, dur, t, idle)
    ensures WorkAccounted(gates, maxActive, dur, u, idle)
  {
    StartMovesWork(gates, maxActive, execute, dur, t, u);
    SameWork(maxActive, t.now, u.now);
  }

  lemma SameWork(maxActive: nat, now: nat, later: nat)
    requires now == later
    ensures maxActive * now == maxActive * later
  {
  }

  // The work of the started gate is no longer pending but running.
  lemma StartMovesWork(gates: seq<Gate>, maxActive: nat, execute: Executor, dur: Duration, t: Timed, u: Timed)
    requires UniqueIds(gates) && Consistent(gates, maxActive, execute, t.m) && TimedStart(gates, maxActive, dur, t, u)
    ensures u.now == t.now
    ensures Remaining(u.m.running, u.due, u.now) + PendingWork(gates, u.m.states, dur)
         == Remaining(t.m.running, t.due, t.now) + PendingWork(gates, t.m.states, dur)
  {
    var gate := FirstReady(gates, t.m.states).value;
    StartedIsNew(gates, maxActive, execute, t.m);
    NewMovesWork(gates, dur, t, gate);
  }

  lemma NewMovesWork(gates: seq<Gate>, dur: Duration, t: Timed, gate: Gate)
    requires UniqueIds(gates) && gate in gates && IsPending(t.m.states, gate)
    requires forall h :: h in gates && h.id == gate.id ==> h == gate
    requires forall h :: h in t.m.running ==> h.id != gate.id
    ensures Remaining(t.m.running + [gate], t.due[gate.id := t.now + dur(gate)], t.now)
            + PendingWork(gates, t.m.states[gate.id := Running], dur)
         == Remaining(t.m.running, t.due, t.now) + PendingWork(gates, t.m.states, dur)
  {
    PendingWorkDrops(gates, t.m.states, dur, gate, Running);
    RemainingSnoc(t.m.running, t.due, t.now, gate, t.now + dur(gate));
  }

  lemma StartedIsNew(gates: seq<Gate>, maxActive: nat, execute: Executor, m: Machine)
    requires UniqueIds(gates) && Consistent(gates, maxActive, execute, m) && CanStart(gates, maxActive, m)
    ensures var gate := FirstReady(gates, m.states).value;
      && gate in gates && IsPending(m.states, gate)
      && (forall h :: h in gates && h.id == gate.id ==> h == gate)
      && (forall h :: h in m.running ==> h.id != gate.id)
  {
    var gate := FirstReady(gates, m.states).value;
    assert Ready(gate, m.states);
    forall h | h in gates && h.id == gate.id ensures h == gate { SameGate(gates, gate, h); }
    forall h | h in m.running ensures h.id != gate.id {
      assert h in gates;
    }
  }

  lemma StartKeepsGreedy(gates: seq<Gate>, maxActive: nat, execute: Executor, dur: Duration, t: Timed, u: Timed,
                         idle: nat)
    requires UniqueIds(gates) && Consistent(gates, maxActive, execute, t.m) && TimedStart(gates, maxActive, dur, t, u)
    requires GreedySoFar(gates, maxActive, dur, t, idle)
    ensures GreedySoFar(gates, maxActive, dur, u, idle)
  {
    var gate := FirstReady(gates, t.m.states).value;
    assert Ready(gate, t.m.states) && IdleExplained(gates, dur, t, idle, gate);
    StartKeepsWork(gates, maxActive, execute, dur, t, u, idle);
    forall h | h in gates ensures IdleExplained(gates, dur, u, idle, h) {
      assert IdleExplained(gates, dur, t, idle, h);
      if Ready(h, u.m.states) { StartMakesNoneReady(gate, h, t.m.states); }
    }
  }

  lemma StartMakesNoneReady(gate: Gate, h: Gate, states: States)
    requires IsPending(states, gate) && Ready(h, states[gate.id := Running])
    ensures Ready(h, states)
  {
    var after := states[gate.id := Running];
    forall d | d in h.needs ensures HasPassed(states, d) { assert HasPassed(after, d); }
    forall d | d in h.after ensures HasSettled(states, d) { assert HasSettled(after, d); }
  }

  lemma NewlyReadyWaited(p: Gate, h: Gate, states: States, status: Status)
    requires p.id in states && states[p.id] == Running
    requires !Ready(h, states) && Ready(h, states[p.id := Settled(status)])
    ensures p.id in Predecessors(h)
  {
    var after := states[p.id := Settled(status)];
    if p.id !in h.needs && p.id !in h.after {
      forall d | d in h.needs ensures HasPassed(states, d) { assert HasPassed(after, d); }
      forall d | d in h.after ensures HasSettled(states, d) { assert HasSettled(after, d); }
    }
  }

  // Idle time added while waiting for the next settlement.
  function IdleAdded(maxActive: nat, t: Timed, u: Timed): int {
    if |t.m.running| < maxActive then u.now - t.now else 0
  }

  // Waiting for `wait` with `running` gates: either every slot works or the wait counts as idle.
  lemma WaitingAccounted(maxActive: nat, running: nat, wait: nat, before: int, total: int, idle: nat)
    requires 0 < running <= maxActive
    requires before <= total + (maxActive - 1) * idle
    ensures before + maxActive * wait - running * wait
         <= total + (maxActive - 1) * (idle + (if running < maxActive then wait else 0))
  {
    if running < maxActive {
      assert maxActive * wait - running * wait == (maxActive - running) * wait;
      assert (maxActive - running) * wait <= (maxActive - 1) * wait;
      assert (maxActive - 1) * (idle + wait) == (maxActive - 1) * idle + (maxActive - 1) * wait;
    }
  }

  lemma PendingAfterSettle(gates: seq<Gate>, maxActive: nat, execute: Executor, dur: Duration, m: Machine, i: nat)
    requires UniqueIds(gates) && Consistent(gates, maxActive, execute, m) && i < |m.running|
    ensures PendingWork(gates, SettleGate(m, i, execute).states, dur) == PendingWork(gates, m.states, dur)
  {
    var gate := m.running[i];
    assert gate in m.running && gate in gates && Explained(gate, execute, m);
    forall h | h in gates && h.id == gate.id ensures h == gate { SameGate(gates, gate, h); }
    PendingWorkDrops(gates, m.states, dur, gate, Settled(execute(gate).status));
  }

  lemma RemainingAfterSettle(running: seq<Gate>, due: map<string, nat>, now: nat, later: nat, i: nat)
    requires i < |running| && running[i].id in due && due[running[i].id] == later
    requires forall gate :: gate in running ==> gate.id in due
    ensures Remaining(running[..i] + running[i + 1..], due, later)
            == Remaining(running, due, now) - |running| * (later - now)
  {
    RemainingLater(running, due, now, later);
    RemainingWithout(running, due, later, i);
  }

  lemma SettleKeepsWork(gates: seq<Gate>, maxActive: nat, execute: Executor, dur: Duration, t: Timed, u: Timed, i: nat,
                        idle: nat)
    requires UniqueIds(gates) && Consistent(gates, maxActive, execute, t.m)
             && TimedSettle(gates, maxActive, execute, t, u, i)
    requires WorkAccounted(gates, maxActive, dur, t, idle) && t.now <= u.now
    requires forall gate :: gate in t.m.running ==> gate.id in t.due
    ensures WorkAccounted(gates, maxActive, dur, u, idle + IdleAdded(maxActive, t, u))
  {
    SettleSpendsWork(gates, maxActive, execute, dur, t, u, i);
    SpentIsAccounted(gates, maxActive, dur, t, u, idle);
  }

  // Until u every running gate of t has worked all the time.
  ghost predicate SpendsWork(gates: seq<Gate>, maxActive: nat, dur: Duration, t: Timed, u: Timed) {
    && 0 < |t.m.running| <= maxActive && t.now <= u.now
    && PendingWork(gates, u.m.states, dur) == PendingWork(gates, t.m.states, dur)
    && Remaining(u.m.running, u.due, u.now)
       == Remaining(t.m.running, t.due, t.now) - |t.m.running| * (u.now - t.now)
  }

  lemma SettleSpendsWork(gates: seq<Gate>, maxActive: nat, execute: Executor, dur: Duration, t: Timed, u: Timed, i: nat)
    requires UniqueIds(gates) && Consistent(gates, maxActive, execute, t.m)
             && TimedSettle(gates, maxActive, execute, t, u, i) && t.now <= u.now
    requires forall gate :: gate in t.m.running ==> gate.id in t.due
    ensures SpendsWork(gates, maxActive, dur, t, u)
  {
    PendingAfterSettle(gates, maxActive, execute, dur, t.m, i);
    RunningIsBounded(gates, maxActive, execute, t.m);
    SettledSpends(execute, t, u, i);
  }

  lemma RunningIsBounded(gates: seq<Gate>, maxActive: nat, execute: Executor, m: Machine)
    requires Consistent(gates, maxActive, execute, m)
    ensures |m.running| <= maxActive
  {
  }

  lemma SettledSpends(execute: Executor, t: Timed, u: Timed, i: nat)
    requires EarliestDue(t, i) && u.m == SettleGate(t.m, i, execute)
    requires u.now == t.due[t.m.running[i].id] && u.due == t.due
    requires forall gate :: gate in t.m.running ==> gate.id in t.due
    ensures Remaining(u.m.running, u.due, u.now)
         == Remaining(t.m.running, t.due, t.now) - |t.m.running| * (u.now - t.now)
  {
    RemainingAfterSettle(t.m.running, t.due, t.now, u.now, i);
  }

  lemma SpentIsAccounted(gates: seq<Gate>, maxActive: nat, dur: Duration, t: Timed, u: Timed, idle: nat)
    requires WorkAccounted(gates, maxActive, dur, t, idle) && SpendsWork(gates, maxActive, dur, t, u)
    ensures WorkAccounted(gates, maxActive, dur, u, idle + IdleAdded(maxActive, t, u))
  {
    WorkAfterWaiting(maxActive, |t.m.running|, t.now, u.now, Remaining(t.m.running, t.due, t.now),
                     PendingWork(gates, t.m.states, dur), TotalWork(gates, dur), idle);
  }

  lemma WorkAfterWaiting(maxActive: nat, running: nat, now: nat, later: nat, remaining: int, pending: int, total: int,
                         idle: nat)
    requires 0 < running <= maxActive && now <= later
    requires maxActive * now + remaining + pending <= total + (maxActive - 1) * idle
    ensures maxActive * later + (remaining - running * (later - now)) + pending
         <= total + (maxActive - 1) * (idle + (if running < maxActive then later - now else 0))
  {
    WaitingAccounted(maxActive, running, later - now, maxActive * now + remaining + pending, total, idle);
    assert maxActive * later == maxActive * now + maxActive * (later - now);
  }

  lemma LongerChain(gates: seq<Gate>, dur: Duration, gate: Gate, a: int, b: int)
    requires ChainLasts(gates, dur, gate, a) && b <= a
    ensures ChainLasts(gates, dur, gate, b)
  {
    var chain :| IsWalk(GraphOf(gates), chain) && chain[0] == gate.id && a <= Weight(gates, dur, chain);
    assert b <= Weight(gates, dur, chain);
  }

  lemma SettleKeepsExplained(gates: seq<Gate>, maxActive: nat, execute: Executor, dur: Duration, t: Timed, u: Timed,
                             i: nat, idle: nat, h: Gate)
    requires UniqueIds(gates) && Consistent(gates, maxActive, execute, t.m)
             && TimedSettle(gates, maxActive, execute, t, u, i)
    requires h in gates && t.now <= u.now
    requires IdleExplained(gates, dur, t, idle, h) && IdleExplained(gates, dur, t, idle, t.m.running[i])
    ensures IdleExplained(gates, dur, u, idle + IdleAdded(maxActive, t, u), h)
  {
    var p, added := t.m.running[i], IdleAdded(maxActive, t, u);
    assert p in t.m.running && p in gates;
    RemoveAt(t.m.running, i);
    if h in u.m.running {
      LongerChain(gates, dur, h, idle + t.due[h.id] - t.now, idle + added + u.due[h.id] - u.now);
    }
    if Ready(h, u.m.states) {
      if Ready(h, t.m.states) {
        assert added == 0;
      } else {
        NewlyReadyWaited(p, h, t.m.states, execute(p).status);
        ChainGrows(gates, dur, h, p, idle + t.due[p.id] - t.now);
        LongerChain(gates, dur, h, idle + t.due[p.id] - t.now + dur(h), idle + added + dur(h));
      }
    }
  }

  lemma SettleKeepsGreedy(gates: seq<Gate>, maxActive: nat, execute: Executor, dur: Duration, t: Timed, u: Timed,
                          i: nat, idle: nat)
    requires UniqueIds(gates) && Consistent(gates, maxActive, execute, t.m)
             && TimedSettle(gates, maxActive, execute, t, u, i)
    requires GreedySoFar(gates, maxActive, dur, t, idle)
    ensures t.now <= u.now
    ensures GreedySoFar(gates, maxActive, dur, u, idle + IdleAdded(maxActive, t, u))
  {
    var p := t.m.running[i];
    assert p in t.m.running && p in gates;
    assert IdleExplained(gates, dur, t, idle, p);
    forall gate | gate in t.m.running ensures gate.id in t.due {
      assert gate in gates && IdleExplained(gates, dur, t, idle, gate);
    }
    SettleKeepsWork(gates, maxActive, execute, dur, t, u, i, idle);
    forall h | h in gates ensures IdleExplained(gates, dur, u, idle + IdleAdded(maxActive, t, u), h) {
      SettleKeepsExplained(gates, maxActive, execute, dur, t, u, i, idle, h);
    }
    LongerChain(gates, dur, p, idle + t.due[p.id] - t.now, idle + IdleAdded(maxActive, t, u));
  }

  lemma InitiallyGreedy(gates: seq<Gate>, maxActive: nat, dur: Duration)
    requires UniqueIds(gates)
    ensures GreedySoFar(gates, maxActive, dur, Timed(Initial(gates), 0, map[]), 0)
  {
    AllWorkPending(gates, gates, dur);
    forall gate | gate in gates ensures ChainLasts(gates, dur, gate, 0 + dur(gate)) {
      SingleChain(gates, dur, gate);
    }
  }

  lemma {:induction false} AllWorkPending(gates: seq<Gate>, some: seq<Gate>, dur: Duration)
    requires forall gate :: gate in some ==> gate in gates
    requires UniqueIds(gates)
    ensures PendingWork(some, Initial(gates).states, dur) == TotalWork(some, dur)
  {
    if some != [] {
      assert some[0] in some;
      var i :| 0 <= i < |gates| && gates[i] == some[0];
      ByIdOfGate(gates, i);
      AllWorkPending(gates, some[1..], dur);
    }
  }

  // ---- Runs that skip nothing ----

  ghost predicate NothingSkipped(m: Machine) {
    forall id :: id in m.states ==> m.states[id] != Settled(Skipped)
  }

  ghost predicate Greedy(gates: seq<Gate>, maxActive: nat, dur: Duration, t: Timed) {
    NothingSkipped(t.m) ==> exists idle: nat :: GreedySoFar(gates, maxActive, dur, t, idle)
  }

  lemma TimedStepKeepsGreedy(gates: seq<Gate>, maxActive: nat, execute: Executor, dur: Duration, t: Timed, u: Timed)
    requires UniqueIds(gates) && Consistent(gates, maxActive, execute, t.m)
             && TimedNext(gates, maxActive, execute, dur, t, u)
    requires Greedy(gates, maxActive, dur, t)
    ensures Consistent(gates, maxActive, execute, u.m) && Greedy(gates, maxActive, dur, u)
  {
    assert Next(gates, maxActive, execute, t.m, u.m);
    StepKeepsConsistent(gates, maxActive, execute, t.m, u.m);
    if NothingSkipped(u.m) {
      SkippedEarlier(t.m, u.m);
      var idle: nat :| GreedySoFar(gates, maxActive, dur, t, idle);
      if TimedStart(gates, maxActive, dur, t, u) {
        StartKeepsGreedy(gates, maxActive, execute, dur, t, u, idle);
      } else if Skips(gates, maxActive, t.m, u.m) {
        SkipSkips(gates, maxActive, t.m, u.m);
      } else {
        var i: nat :| TimedSettle(gates, maxActive, execute, t, u, i);
        SettleKeepsGreedy(gates, maxActive, execute, dur, t, u, i, idle);
      }
    }
  }

  lemma SkipSkips(gates: seq<Gate>, maxActive: nat, m: Machine, n: Machine)
    requires Skips(gates, maxActive, m, n)
    ensures !NothingSkipped(n)
  {
    var gate := FirstBlocked(gates, m.states).value;
    assert gate.id in n.states && n.states[gate.id] == Settled(Skipped);
  }

  lemma SkippedEarlier(m: Machine, n: Machine)
    requires Advances(m, n) && NothingSkipped(n)
    ensures NothingSkipped(m)
  {
    forall id | id in m.states ensures m.states[id] != Settled(Skipped) {
      if HasSettled(m.states, id) { assert n.states[id] == m.states[id]; }
    }
  }

  lemma {:induction false} TimedInvariant(gates: seq<Gate>, maxActive: nat, execute: Executor, dur: Duration,
                                          run: seq<Timed>, k: nat, inv: Timed -> bool)
    requires UniqueIds(gates) && IsTimedRun(gates, maxActive, execute, dur, run) && k < |run|
    requires inv(run[0])
    requires forall t: Timed, u: Timed :: (Consistent(gates, maxActive, execute, t.m) && inv(t)
                             && TimedNext(gates, maxActive, execute, dur, t, u)) ==>
               Consistent(gates, maxActive, execute, u.m) && inv(u)
    ensures Consistent(gates, maxActive, execute, run[k].m) && inv(run[k])
  {
    if k == 0 {
      InitialConsistent(gates, maxActive, execute);
    } else {
      TimedInvariant(gates, maxActive, execute, dur, run, k - 1, inv);
      assert TimedStepAt(gates, maxActive, execute, dur, run, k - 1);
    }
  }

  lemma GreedyIsInvariant(gates: seq<Gate>, maxActive: nat, execute: Executor, dur: Duration, inv: Timed -> bool)
    requires UniqueIds(gates) && forall t :: inv(t) <==> Greedy(gates, maxActive, dur, t)
    ensures forall t: Timed, u: Timed :: (Consistent(gates, maxActive, execute, t.m) && inv(t)
                            && TimedNext(gates, maxActive, execute, dur, t, u)) ==>
              Consistent(gates, maxActive, execute, u.m) && inv(u)
  {
    forall t: Timed, u: Timed | Consistent(gates, maxActive, execute, t.m) && inv(t)
      && TimedNext(gates, maxActive, execute, dur, t, u)
      ensures Consistent(gates, maxActive, execute, u.m) && inv(u)
    {
      TimedStepKeepsGreedy(gates, maxActive, execute, dur, t, u);
    }
  }

  lemma GreedyAlongRun(gates: seq<Gate>, maxActive: nat, execute: Executor, dur: Duration, run: seq<Timed>,
                       inv: Timed -> bool)
    requires UniqueIds(gates) && maxActive > 0 && IsTimedRun(gates, maxActive, execute, dur, run)
    requires forall t :: inv(t) <==> Greedy(gates, maxActive, dur, t)
    ensures Consistent(gates, maxActive, execute, run[|run| - 1].m) && inv(run[|run| - 1])
  {
    InitiallyGreedy(gates, maxActive, dur);
    GreedyIsInvariant(gates, maxActive, execute, dur, inv);
    TimedInvariant(gates, maxActive, execute, dur, run, |run| - 1, inv);
  }

  // The greedy bound: in every complete timed run that skips no gate, some chain of
  // dependencies satisfies  maxActive * makespan <= work + (maxActive - 1) * chain.
  lemma GreedyBound(gates: seq<Gate>, maxActive: nat, execute: Executor, dur: Duration, run: seq<Timed>)
    returns (chain: seq<string>)
    requires gates != [] && UniqueIds(gates) && maxActive > 0 && IsTimedRun(gates, maxActive, execute, dur, run)
    requires AllSettled(run[|run| - 1].m) && NothingSkipped(run[|run| - 1].m)
    ensures IsWalk(GraphOf(gates), chain)
    ensures maxActive * run[|run| - 1].now <= TotalWork(gates, dur) + (maxActive - 1) * Weight(gates, dur, chain)
  {
    GreedyAlongRun(gates, maxActive, execute, dur, run, t => Greedy(gates, maxActive, dur, t));
    chain := BoundAtEnd(gates, maxActive, execute, dur, run[|run| - 1]);
  }

  lemma BoundAtEnd(gates: seq<Gate>, maxActive: nat, execute: Executor, dur: Duration, t: Timed)
    returns (chain: seq<string>)
    requires gates != [] && UniqueIds(gates) && maxActive > 0 && Consistent(gates, maxActive, execute, t.m)
    requires AllSettled(t.m) && NothingSkipped(t.m) && Greedy(gates, maxActive, dur, t)
    ensures IsWalk(GraphOf(gates), chain)
    ensures maxActive * t.now <= TotalWork(gates, dur) + (maxActive - 1) * Weight(gates, dur, chain)
  {
    NothingRunsAtEnd(gates, maxActive, execute, t.m);
    var idle: nat :| GreedySoFar(gates, maxActive, dur, t, idle);
    chain := IdleChain(gates, maxActive, dur, t, idle);
    MoreIdle(gates, maxActive, dur, t, idle, Weight(gates, dur, chain));
  }

  lemma MoreIdle(gates: seq<Gate>, maxActive: nat, dur: Duration, t: Timed, idle: nat, chain: nat)
    requires maxActive > 0 && idle <= chain && t.m.running == [] && WorkAccounted(gates, maxActive, dur, t, idle)
    ensures maxActive * t.now <= TotalWork(gates, dur) + (maxActive - 1) * chain
  {
    TimesGrows(maxActive - 1, idle, chain);
  }

  lemma TimesGrows(slots: nat, a: nat, b: nat)
    requires a <= b
    ensures slots * a <= slots * b
  {
  }

  lemma NothingRunsAtEnd(gates: seq<Gate>, maxActive: nat, execute: Executor, m: Machine)
    requires Consistent(gates, maxActive, execute, m) && AllSettled(m)
    ensures m.running == []
  {
    forall gate: Gate ensures gate !in m.running {
      assert gate in m.running ==> Explained(gate, execute, m);
    }
    FirstIsMember(m.running);
  }

  lemma IdleChain(gates: seq<Gate>, maxActive: nat, dur: Duration, t: Timed, idle: nat) returns (chain: seq<string>)
    requires gates != [] && UniqueIds(gates) && GreedySoFar(gates, maxActive, dur, t, idle)
    ensures IsWalk(GraphOf(gates), chain) && idle <= Weight(gates, dur, chain)
  {
    var gate := gates[0];
    if idle == 0 {
      SingleChain(gates, dur, gate);
      LongerChain(gates, dur, gate, dur(gate), 0);
    } else {
      gate :| gate in gates && ChainLasts(gates, dur, gate, idle);
    }
    chain :| IsWalk(GraphOf(gates), chain) && chain[0] == gate.id && idle <= Weight(gates, dur, chain);
  }
}
