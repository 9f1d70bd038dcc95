// The lint pool: workers that share one counter of targets, in every interleaving.
module WorkerPool {

  // Between two awaits a worker is about to take a target, waits for the lint of one, or has
  // found the counter past the end.
  datatype Worker = Free | Linting(index: nat) | Stopped

  // The shared counter, the workers, the result slots, and which targets have been started.
  datatype Pool<R> = Pool(next: nat, workers: seq<Worker>, results: map<nat, R>, started: seq<nat>)

  function Init<R>(concurrency: nat): Pool<R> {
    Pool(0, seq(concurrency, _ => Free), map[], [])
  }

  // Worker w runs up to its next await.
  function Advance<T, R>(targets: seq<T>, lint: T -> R, p: Pool<R>, w: nat): Pool<R>
    requires w < |p.workers| && !p.workers[w].Stopped?
    requires p.workers[w].Linting? ==> p.workers[w].index < |targets|
  {
    match p.workers[w]
    case Free =>
      if p.next < |targets|
      then p.(next := p.next + 1, workers := p.workers[w := Linting(p.next)], started := p.started + [p.next])
      else p.(next := p.next + 1, workers := p.workers[w := Stopped])
    case Linting(index) =>
      p.(workers := p.workers[w := Free], results := p.results[index := lint(targets[index])])
  }

  ghost predicate IsLinting(p: Pool, i: nat) {
    exists w :: 0 <= w < |p.workers| && p.workers[w] == Linting(i)
  }

  // Each target below the counter was started once and is either in progress, in one worker,
  // or has its own result.
  ghost predicate Sound<T, R(!new)>(targets: seq<T>, lint: T -> R, p: Pool<R>) {
    match p
    case Pool(next, workers, results, started) =>
      && |started| == (if next < |targets| then next else |targets|)
      && (forall i :: 0 <= i < |started| ==> started[i] == i)
      && (forall i :: i in results ==> i < |started| && results[i] == lint(targets[i]))
      && (forall i: nat :: i < |started| ==> (IsLinting(p, i) <==> i !in results))
      && (forall w :: 0 <= w < |workers| && workers[w].Linting? ==> workers[w].index < |started|)
      && (forall v, w :: 0 <= v < w < |workers| && workers[v].Linting? ==> workers[v] != workers[w])
      && (forall w :: 0 <= w < |workers| && workers[w].Stopped? ==> next > |targets|)
  }

  lemma InitSound<T, R(!new)>(targets: seq<T>, lint: T -> R, concurrency: nat)
    ensures Sound(targets, lint, Init<R>(concurrency))
  {
  }

  lemma LintingAfter<R>(p: Pool<R>, w: nat, worker: Worker, i: nat)
    requires w < |p.workers|
    requires forall v :: 0 <= v < |p.workers| && v != w && p.workers[v].Linting? ==> p.workers[v] != p.workers[w]
    ensures IsLinting(p.(workers := p.workers[w := worker]), i) <==>
              worker == Linting(i) || (IsLinting(p, i) && p.workers[w] != Linting(i))
  {
    var q := p.(workers := p.workers[w := worker]);
    if v :| 0 <= v < |p.workers| && p.workers[v] == Linting(i) {
      if v != w { assert q.workers[v] == Linting(i); }
    }
    if v :| 0 <= v < |q.workers| && q.workers[v] == Linting(i) {
      if v != w { assert p.workers[v] == Linting(i); }
    }
    assert q.workers[w] == worker;
  }

  // Any worker may run next: the pool stays sound.
  lemma AdvanceKeepsSound<T, R(!new)>(targets: seq<T>, lint: T -> R, p: Pool<R>, w: nat)
    requires Sound(targets, lint, p) && w < |p.workers| && !p.workers[w].Stopped?
    ensures Sound(targets, lint, Advance(targets, lint, p, w))
  {
    var q := Advance(targets, lint, p, w);
    forall i: nat ensures IsLinting(q, i)
      <==> q.workers[w] == Linting(i) || (IsLinting(p, i) && p.workers[w] != Linting(i)) {
      LintingAfter(p, w, q.workers[w], i);
      assert IsLinting(q, i) == IsLinting(p.(workers := p.workers[w := q.workers[w]]), i);
    }
    assert IsLinting(p, p.next) ==> p.next < |p.started|;
    assert p.workers[w].Linting? ==> IsLinting(p, p.workers[w].index);
  }

  // Two units of work for each target not taken, one for each in progress, one for each worker
  // still to stop.
  function WorkLeft<T, R>(targets: seq<T>, p: Pool<R>): nat {
    2 * (if p.next < |targets| then |targets| - p.next else 0) + Units(p.workers)
  }

  function Units(workers: seq<Worker>): nat {
    if workers == [] then 0
    else (match workers[0] case Free => 1 case Linting(_) => 2 case Stopped => 0) + Units(workers[1..])
  }

  lemma {:induction false} UnitsChange(workers: seq<Worker>, w: nat, worker: Worker)
    requires w < |workers|
    ensures Units(workers[w := worker]) == Units(workers) - Units([workers[w]]) + Units([worker])
  {
    assert [worker][1..] == [] && [workers[w]][1..] == [];
    if w > 0 {
      assert workers[w := worker][1..] == workers[1..][w - 1 := worker];
      UnitsChange(workers[1..], w - 1, worker);
    } else {
      assert workers[w := worker][1..] == workers[1..];
    }
  }

  lemma AdvanceUsesWork<T, R>(targets: seq<T>, lint: T -> R, p: Pool<R>, w: nat)
    requires w < |p.workers| && !p.workers[w].Stopped?
    requires p.workers[w].Linting? ==> p.workers[w].index < |targets|
    ensures WorkLeft(targets, Advance(targets, lint, p, w)) < WorkLeft(targets, p)
  {
    var worker := Advance(targets, lint, p, w).workers[w];
    UnitsChange(p.workers, w, worker);
    assert [worker][1..] == [] && [p.workers[w]][1..] == [];
  }

  ghost predicate AllStopped(p: Pool) {
    forall w :: 0 <= w < |p.workers| ==> p.workers[w].Stopped?
  }

  // Once every worker has stopped, every slot is filled.
  lemma StoppedIsComplete<T, R(!new)>(targets: seq<T>, lint: T -> R, p: Pool<R>)
    requires Sound(targets, lint, p) && AllStopped(p) && |p.workers| > 0
    ensures p.started == seq(|targets|, i requires 0 <= i < |targets| => i)
    ensures forall i :: 0 <= i < |targets| ==> i in p.results && p.results[i] == lint(targets[i])
  {
    assert p.workers[0].Stopped?;
    forall i | 0 <= i < |targets| ensures i in p.results {
      assert !IsLinting(p, i);
    }
  }

  // Whatever worker runs when (the choice of `w`), the pool ends, has linted every target once,
  // and returns the results in target order.
  method RunAll<T, R(!new)>(targets: seq<T>, concurrency: nat, lint: T -> R)
    returns (results: seq<R>, ghost started: seq<nat>)
    requires concurrency > 0
    ensures results == seq(|targets|, i requires 0 <= i < |targets| => lint(targets[i]))
    ensures started == seq(|targets|, i requires 0 <= i < |targets| => i)
  {
    var pool := Init<R>(concurrency);
    InitSound(targets, lint, concurrency);
    while exists w | 0 <= w < |pool.workers| :: !pool.workers[w].Stopped?
      invariant Sound(targets, lint, pool) && |pool.workers| == concurrency
      decreases WorkLeft(targets, pool)
    {
      var w :| 0 <= w < |pool.workers| && !pool.workers[w].Stopped?;
      AdvanceKeepsSound(targets, lint, pool, w);
      AdvanceUsesWork(targets, lint, pool, w);
      pool := Advance(targets, lint, pool, w);
    }
    StoppedIsComplete(targets, lint, pool);
    results := seq(|targets|, i requires 0 <= i < |targets| => pool.results[i]);
    started := pool.started;
  }
}
