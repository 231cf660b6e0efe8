/** The thread pool (src/util/thread_pool_executor.cc) as a machine of atomic steps. */
module ThreadPool {

  /** Tasks are named by the order in which they are added. */
  type Task = nat

  /** Where a worker thread is. */
  datatype Worker =
    | AtTest                // before it reads `done_` in `worker`
    | AtQueue               // before it looks at the queue in `get`, with the mutex
    | Waiting               // in the timed wait of `get`, without the mutex
    | Running(task: Task)   // executing a task
    | Exited

  /** Where the thread that calls `stop` is. */
  datatype Stopper = Idle | Joining(next: nat) | Stopped

  /** `dequeued` and `executed` are histories; the program keeps only the other fields. */
  datatype State = State(
    added: nat,
    tasks: seq<Task>,
    done: bool,
    workers: seq<Worker>,
    stopper: Stopper,
    dequeued: seq<Task>,
    executed: seq<Task>)

  datatype Action =
    | Add
    | BeginStop
    | Join
    | Test(w: nat)
    | Get(w: nat)
    | Wake(w: nat)      // notified, timed out, or woken for no reason
    | Finish(w: nat)
  {
    predicate ByWorker() {
      Test? || Get? || Wake? || Finish?
    }
  }

  /** A pool size of zero asks for as many threads as the hardware runs at a time. */
  function Init(poolSize: nat, hardwareConcurrency: nat): State {
    var n := if poolSize == 0 then hardwareConcurrency else poolSize;
    State(0, [], false, seq(n, i => AtTest), Idle, [], [])
  }

  predicate Enabled(s: State, a: Action) {
    match a
    case Add => true
    case BeginStop => !s.stopper.Joining?
    case Join => s.stopper.Joining? && (s.stopper.next < |s.workers| ==> s.workers[s.stopper.next].Exited?)
    case Test(w) => w < |s.workers| && s.workers[w].AtTest?
    case Get(w) => w < |s.workers| && s.workers[w].AtQueue?
    case Wake(w) => w < |s.workers| && s.workers[w].Waiting?
    case Finish(w) => w < |s.workers| && s.workers[w].Running?
  }

  function Next(s: State, a: Action): State
    requires Enabled(s, a)
  {
    match a
    case Add => s.(added := s.added + 1, tasks := s.tasks + [s.added])
    case BeginStop => s.(done := true, stopper := Joining(0))
    case Join => s.(stopper := if s.stopper.next < |s.workers| then Joining(s.stopper.next + 1) else Stopped)
    case Test(w) => s.(workers := s.workers[w := if s.done then Exited else AtQueue])
    case Get(w) =>
      if s.tasks != [] then
        s.(workers := s.workers[w := Running(s.tasks[0])], tasks := s.tasks[1..], dequeued := s.dequeued + [s.tasks[0]])
      else s.(workers := s.workers[w := if s.done then Exited else Waiting])
    case Wake(w) => s.(workers := s.workers[w := AtQueue])
    case Finish(w) => s.(workers := s.workers[w := AtTest], executed := s.executed + [s.workers[w].task])
  }

  // ---------- Runs ----------

  /** Every interleaving of the threads is a sequence of enabled actions. */
  ghost predicate IsRun(s: State, run: seq<Action>)
    decreases |run|
  {
    run == [] || (Enabled(s, run[0]) && IsRun(Next(s, run[0]), run[1..]))
  }

  ghost function After(s: State, run: seq<Action>): State
    requires IsRun(s, run)
    decreases |run|
  {
    if run == [] then s else After(Next(s, run[0]), run[1..])
  }

  // ---------- What every step keeps ----------

  function Iota(n: nat): seq<Task> {
    seq(n, i => i)
  }

  function HeldBy(worker: Worker): multiset<Task> {
    if worker.Running? then multiset{worker.task} else multiset{}
  }

  /** The tasks that are in the hands of the workers. */
  function Held(workers: seq<Worker>): multiset<Task> {
    if workers == [] then multiset{} else HeldBy(workers[0]) + Held(workers[1..])
  }

  /** First in, first out: what was dequeued, followed by the queue, is what was added. */
  ghost predicate Fifo(s: State) {
    s.dequeued + s.tasks == Iota(s.added)
  }

  /** A dequeued task is in the hands of one worker, or it was executed once. */
  ghost predicate OnceEach(s: State) {
    multiset(s.dequeued) == multiset(s.executed) + Held(s.workers)
  }

  ghost predicate ExitedUpTo(workers: seq<Worker>, n: nat) {
    n <= |workers| && forall w :: 0 <= w < n ==> workers[w].Exited?
  }

  /** Workers exit only after the flag was set, and `stop` has passed only workers that have exited. */
  ghost predicate Shutdown(s: State) {
    && (!s.done ==> forall w :: 0 <= w < |s.workers| ==> !s.workers[w].Exited?)
    && (s.stopper.Joining? ==> s.done && ExitedUpTo(s.workers, s.stopper.next))
    && (s.stopper.Stopped? ==> s.done && ExitedUpTo(s.workers, |s.workers|))
  }

  ghost predicate Invariant(s: State) {
    Fifo(s) && OnceEach(s) && Shutdown(s)
  }

  lemma {:induction false} HeldNothing(workers: seq<Worker>)
    requires forall w :: 0 <= w < |workers| ==> !workers[w].Running?
    ensures Held(workers) == multiset{}
  {
    if workers != [] {
      HeldNothing(workers[1..]);
    }
  }

  lemma Swap(a: multiset<Task>, r: multiset<Task>, b: multiset<Task>)
    ensures a + r + b == b + r + a
  {
  }

  lemma Under(h: multiset<Task>, x: multiset<Task>, a: multiset<Task>, y: multiset<Task>, b: multiset<Task>)
    requires x + a == y + b
    ensures h + x + a == h + y + b
  {
    assert h + x + a == h + (x + a);
    assert h + y + b == h + (y + b);
  }

  /** What changes when one worker moves. */
  lemma {:induction false} HeldUpdate(workers: seq<Worker>, w: nat, to: Worker)
    requires w < |workers|
    ensures Held(workers[w := to]) + HeldBy(workers[w]) == Held(workers) + HeldBy(to)
  {
    hide HeldBy;
    var updated := workers[w := to];
    if w == 0 {
      assert updated[1..] == workers[1..];
      Swap(HeldBy(to), Held(workers[1..]), HeldBy(workers[0]));
    } else {
      HeldUpdate(workers[1..], w - 1, to);
      assert updated[1..] == workers[1..][w - 1 := to];
      Under(HeldBy(workers[0]), Held(updated[1..]), HeldBy(workers[w]), Held(workers[1..]), HeldBy(to));
    }
  }

  lemma InvariantInit(poolSize: nat, hardwareConcurrency: nat)
    ensures Invariant(Init(poolSize, hardwareConcurrency))
  {
    HeldNothing(Init(poolSize, hardwareConcurrency).workers);
  }

  lemma FifoStep(s: State, a: Action)
    requires Fifo(s) && Enabled(s, a)
    ensures Fifo(Next(s, a))
  {
    var t := Next(s, a);
    if a.Add? {
      assert t.dequeued + t.tasks == (s.dequeued + s.tasks) + [s.added];
      assert Iota(s.added) + [s.added] == Iota(s.added + 1);
    } else if a.Get? && s.tasks != [] {
      assert s.tasks == [s.tasks[0]] + s.tasks[1..];
      assert t.dequeued + t.tasks == s.dequeued + s.tasks;
    }
  }

  /** The histories grow by what the worker gains or gives up. */
  ghost predicate Balanced(s: State, t: State, before: Worker, after: Worker) {
    multiset(t.dequeued) + HeldBy(before) + multiset(s.executed) ==
    multiset(s.dequeued) + HeldBy(after) + multiset(t.executed)
  }

  lemma BalancedMove(s: State, t: State, before: Worker, after: Worker)
    requires t.dequeued == s.dequeued && t.executed == s.executed && !before.Running? && !after.Running?
    ensures Balanced(s, t, before, after)
  {
  }

  lemma BalancedGet(s: State, t: State, before: Worker, task: Task)
    requires t.dequeued == s.dequeued + [task] && t.executed == s.executed && !before.Running?
    ensures Balanced(s, t, before, Running(task))
  {
    assert multiset(t.dequeued) == multiset(s.dequeued) + multiset{task};
  }

  lemma BalancedFinish(s: State, t: State, task: Task, after: Worker)
    requires t.dequeued == s.dequeued && t.executed == s.executed + [task] && !after.Running?
    ensures Balanced(s, t, Running(task), after)
  {
    assert multiset(t.executed) == multiset(s.executed) + multiset{task};
  }

  lemma BalancedStep(s: State, a: Action)
    requires Enabled(s, a) && a.ByWorker()
    ensures Balanced(s, Next(s, a), s.workers[a.w], Next(s, a).workers[a.w])
  {
    hide Balanced;
    var t := Next(s, a);
    if a.Get? && s.tasks != [] {
      BalancedGet(s, t, s.workers[a.w], s.tasks[0]);
    } else if a.Finish? {
      BalancedFinish(s, t, s.workers[a.w].task, t.workers[a.w]);
    } else {
      BalancedMove(s, t, s.workers[a.w], t.workers[a.w]);
    }
  }

  lemma Settle(d: multiset<Task>, e: multiset<Task>, h: multiset<Task>,
               d': multiset<Task>, e': multiset<Task>, h': multiset<Task>, x: multiset<Task>, x': multiset<Task>)
    requires d == e + h && h' + x == h + x' && d' + x + e == d + x' + e'
    ensures d' == e' + h'
  {
    forall t ensures d'[t] == (e' + h')[t] {
      assert (d' + x + e)[t] == (d + x' + e')[t];
      assert (h' + x)[t] == (h + x')[t];
    }
  }

  lemma OnceEachStep(s: State, a: Action)
    requires OnceEach(s) && Enabled(s, a)
    ensures OnceEach(Next(s, a))
  {
    hide Held, HeldBy;
    if a.ByWorker() {
      var t := Next(s, a);
      assert t.workers == s.workers[a.w := t.workers[a.w]];
      HeldUpdate(s.workers, a.w, t.workers[a.w]);
      BalancedStep(s, a);
      Settle(multiset(s.dequeued), multiset(s.executed), Held(s.workers),
             multiset(t.dequeued), multiset(t.executed), Held(t.workers), HeldBy(s.workers[a.w]), HeldBy(t.workers[a.w]));
    }
  }

  lemma ShutdownStep(s: State, a: Action)
    requires Shutdown(s) && Enabled(s, a)
    ensures Shutdown(Next(s, a))
  {
    hide Held;
  }

  lemma InvariantStep(s: State, a: Action)
    requires Invariant(s) && Enabled(s, a)
    ensures Invariant(Next(s, a))
  {
    hide Fifo, OnceEach, Shutdown, Next;
    FifoStep(s, a);
    OnceEachStep(s, a);
    ShutdownStep(s, a);
  }

  lemma {:induction false} InvariantRun(s: State, run: seq<Action>)
    requires Invariant(s) && IsRun(s, run)
    ensures Invariant(After(s, run))
    decreases |run|
  {
    hide Invariant, Next, Enabled;
    if run != [] {
      InvariantStep(s, run[0]);
      InvariantRun(Next(s, run[0]), run[1..]);
    }
  }

  // ---------- Every task is in exactly one place ----------

  lemma {:induction false} IotaCounts(n: nat, t: Task)
    ensures multiset(Iota(n))[t] == if t < n then 1 else 0
  {
    if n > 0 {
      IotaCounts(n - 1, t);
      assert Iota(n) == Iota(n - 1) + [n - 1];
    } else {
      assert Iota(0) == [];
    }
  }

  /** In every reachable state each added task is queued once, or in the hands of one worker, or was executed once. */
  lemma ExactlyOnePlace(poolSize: nat, hardwareConcurrency: nat, run: seq<Action>, t: Task)
    requires IsRun(Init(poolSize, hardwareConcurrency), run)
    ensures var s := After(Init(poolSize, hardwareConcurrency), run);
      multiset(s.tasks)[t] + Held(s.workers)[t] + multiset(s.executed)[t] == if t < s.added then 1 else 0
  {
    hide Held, Init, IsRun, Iota;
    InvariantInit(poolSize, hardwareConcurrency);
    InvariantRun(Init(poolSize, hardwareConcurrency), run);
    var s := After(Init(poolSize, hardwareConcurrency), run);
    IotaCounts(s.added, t);
    assert multiset(s.dequeued + s.tasks) == multiset(s.dequeued) + multiset(s.tasks);
    assert multiset(s.dequeued)[t] == (multiset(s.executed) + Held(s.workers))[t];
  }

  /** Tasks leave the queue in the order in which they were added. */
  lemma DequeuedInOrder(poolSize: nat, hardwareConcurrency: nat, run: seq<Action>)
    requires IsRun(Init(poolSize, hardwareConcurrency), run)
    ensures var s := After(Init(poolSize, hardwareConcurrency), run);
      && |s.dequeued| <= s.added
      && s.dequeued == Iota(s.added)[..|s.dequeued|]
      && s.tasks == Iota(s.added)[|s.dequeued|..]
  {
    hide Init, IsRun;
    InvariantInit(poolSize, hardwareConcurrency);
    InvariantRun(Init(poolSize, hardwareConcurrency), run);
    var s := After(Init(poolSize, hardwareConcurrency), run);
    hide After, Iota;
    assert |s.dequeued + s.tasks| == |Iota(s.added)|;
    assert (s.dequeued + s.tasks)[..|s.dequeued|] == s.dequeued;
    assert (s.dequeued + s.tasks)[|s.dequeued|..] == s.tasks;
    IotaLength(s.added);
  }

  lemma IotaLength(n: nat)
    ensures |Iota(n)| == n
  {
  }

  // ---------- After the flag is set ----------

  /** How many tasks worker `w` takes from the queue during the run. */
  ghost function Dequeues(s: State, run: seq<Action>, w: nat): nat
    requires IsRun(s, run)
    decreases |run|
  {
    if run == [] then 0
    else (if run[0] == Get(w) && s.tasks != [] then 1 else 0) + Dequeues(Next(s, run[0]), run[1..], w)
  }

  /** A worker may be on its way to the queue when the flag is set, and only then. */
  predicate OnItsWay(worker: Worker) {
    worker.AtQueue? || worker.Waiting?
  }

  /** Once the flag is set, each worker takes at most one more task. */
  lemma {:induction false} AtMostOneMore(s: State, run: seq<Action>, w: nat)
    requires s.done && w < |s.workers| && IsRun(s, run)
    ensures Dequeues(s, run, w) <= if OnItsWay(s.workers[w]) then 1 else 0
    decreases |run|
  {
    if run != [] {
      var t := Next(s, run[0]);
      assert t.done && |t.workers| == |s.workers|;
      assert OnItsWay(t.workers[w]) ==> OnItsWay(s.workers[w]) && !(run[0] == Get(w) && s.tasks != []);
      assert run[0] == Get(w) && s.tasks != [] ==> OnItsWay(s.workers[w]);
      AtMostOneMore(t, run[1..], w);
    }
  }

  // ---------- No worker is ever stuck, and after the flag is set all of them exit ----------

  function ActionOf(worker: Worker, w: nat): Action {
    match worker
    case AtTest => Test(w)
    case AtQueue => Get(w)
    case Waiting => Wake(w)
    case Running(task) => Finish(w)
    case Exited => Join
  }

  /**
   * A worker that has not exited can always move, also out of the wait that
   * nobody ends by a notification, and a caller of `stop` can go on as soon as
   * the worker that it joins has exited.
   */
  lemma NobodyIsStuck(s: State, w: nat)
    requires w < |s.workers|
    ensures !s.workers[w].Exited? ==> Enabled(s, ActionOf(s.workers[w], w)) && ActionOf(s.workers[w], w).ByWorker()
    ensures s.stopper == Joining(w) && s.workers[w].Exited? ==> Enabled(s, Join)
    ensures s.stopper == Joining(|s.workers|) ==> Enabled(s, Join)
  {
  }

  /** How many steps a worker has at most before it exits, once the flag is set. */
  function StepsLeft(worker: Worker): nat {
    match worker
    case Waiting => 4
    case AtQueue => 3
    case Running(task) => 2
    case AtTest => 1
    case Exited => 0
  }

  function Sum(workers: seq<Worker>, rank: Worker -> nat): nat {
    if workers == [] then 0 else rank(workers[0]) + Sum(workers[1..], rank)
  }

  lemma {:induction false} SumUpdate(workers: seq<Worker>, w: nat, to: Worker, rank: Worker -> nat)
    requires w < |workers|
    ensures Sum(workers[w := to], rank) == Sum(workers, rank) - rank(workers[w]) + rank(to)
  {
    var updated := workers[w := to];
    if w == 0 {
      assert updated[1..] == workers[1..];
    } else {
      SumUpdate(workers[1..], w - 1, to, rank);
      assert updated[1..] == workers[1..][w - 1 := to];
    }
  }

  /** The steps that workers and the caller of `stop` have left. */
  function ShutdownSteps(s: State): nat {
    Sum(s.workers, StepsLeft) +
    match s.stopper
    case Idle => 0
    case Joining(next) => if next <= |s.workers| then |s.workers| + 1 - next else 0
    case Stopped => 0
  }

  lemma ShutdownStepCounts(s: State, a: Action)
    requires s.done && Enabled(s, a) && Shutdown(s)
    ensures a.ByWorker() || a.Join? ==> ShutdownSteps(Next(s, a)) < ShutdownSteps(s)
    ensures a.Add? ==> ShutdownSteps(Next(s, a)) == ShutdownSteps(s)
  {
    hide Sum;
    if a.ByWorker() {
      var t := Next(s, a);
      assert t.workers == s.workers[a.w := t.workers[a.w]];
      SumUpdate(s.workers, a.w, t.workers[a.w], StepsLeft);
    }
  }

  /** The actions of a run that are neither adds nor new calls of `stop`. */
  function Moves(run: seq<Action>): nat {
    if run == [] then 0 else (if run[0].ByWorker() || run[0].Join? then 1 else 0) + Moves(run[1..])
  }

  /**
   * While `stop` runs, tasks may still be added, but the workers and `stop`
   * itself have only a bounded number of steps left. With `AtRestIsOver`, every
   * worker exits and `stop` returns.
   */
  lemma {:induction false} StopReturns(s: State, run: seq<Action>)
    requires s.done && Shutdown(s) && IsRun(s, run)
    requires forall i :: 0 <= i < |run| ==> !run[i].BeginStop?
    ensures After(s, run).done
    ensures Moves(run) + ShutdownSteps(After(s, run)) <= ShutdownSteps(s)
    decreases |run|
  {
    hide Shutdown, ShutdownSteps;
    if run != [] {
      ShutdownStepCounts(s, run[0]);
      ShutdownStep(s, run[0]);
      StopReturns(Next(s, run[0]), run[1..]);
    }
  }

  ghost predicate AtRest(s: State) {
    forall a: Action :: a.ByWorker() || a.Join? ==> !Enabled(s, a)
  }

  /** A run in which neither a worker nor `stop` can move any more is one in which all have come to their end. */
  lemma AtRestIsOver(s: State)
    ensures AtRest(s) <==> (forall w :: 0 <= w < |s.workers| ==> s.workers[w].Exited?) && !s.stopper.Joining?
  {
    if AtRest(s) {
      forall w | 0 <= w < |s.workers| ensures s.workers[w].Exited? {
        assert !Enabled(s, ActionOf(s.workers[w], w));
      }
      assert !Enabled(s, Join);
    }
  }

  lemma {:induction false} FlagStays(s: State, run: seq<Action>)
    requires s.done && !s.stopper.Idle? && IsRun(s, run)
    ensures After(s, run).done && !After(s, run).stopper.Idle?
    decreases |run|
  {
    if run != [] {
      FlagStays(Next(s, run[0]), run[1..]);
    }
  }

  /**
   * From any reachable state in which `stop` is called: however the threads and
   * further adds interleave, the workers and `stop` make a bounded number of
   * moves, and when none of them can move any more, all workers have exited and
   * `stop` has returned.
   */
  lemma {:induction false} StopEnds(poolSize: nat, hardwareConcurrency: nat, before: seq<Action>, run: seq<Action>)
    requires IsRun(Init(poolSize, hardwareConcurrency), before)
    requires Enabled(After(Init(poolSize, hardwareConcurrency), before), BeginStop)
    requires IsRun(Next(After(Init(poolSize, hardwareConcurrency), before), BeginStop), run)
    requires forall i :: 0 <= i < |run| ==> !run[i].BeginStop?
    ensures var s := Next(After(Init(poolSize, hardwareConcurrency), before), BeginStop);
      && Moves(run) <= ShutdownSteps(s)
      && (AtRest(After(s, run)) <==> After(s, run).stopper.Stopped?)
      && (AtRest(After(s, run)) ==> forall w :: 0 <= w < |After(s, run).workers| ==> After(s, run).workers[w].Exited?)
  {
    hide Init, IsRun, Enabled, Moves, ShutdownSteps, AtRest, Fifo, OnceEach;
    InvariantInit(poolSize, hardwareConcurrency);
    InvariantRun(Init(poolSize, hardwareConcurrency), before);
    var at := After(Init(poolSize, hardwareConcurrency), before);
    InvariantStep(at, BeginStop);
    var s := Next(at, BeginStop);
    hide After;
    InvariantRun(s, run);
    StopReturns(s, run);
    FlagStays(s, run);
    AtRestIsOver(After(s, run));
  }

  /** Once the flag is set, moves of the workers and of `stop` alone lead to a state in which nobody can move. */
  lemma {:induction false} LeadToRest(s: State) returns (run: seq<Action>)
    requires s.done && Shutdown(s)
    ensures IsRun(s, run) && AtRest(After(s, run)) && forall i :: 0 <= i < |run| ==> !run[i].BeginStop? && !run[i].Add?
    decreases ShutdownSteps(s)
  {
    if AtRest(s) {
      run := [];
    } else {
      var a: Action :| (a.ByWorker() || a.Join?) && Enabled(s, a);
      ShutdownStepCounts(s, a);
      ShutdownStep(s, a);
      hide Shutdown, ShutdownSteps, AtRest;
      var rest := LeadToRest(Next(s, a));
      run := [a] + rest;
      assert run[1..] == rest;
    }
  }

  /** In every reachable state in which it is not running, `stop` can be called, and it can return. */
  lemma {:induction false} StopCanReturn(poolSize: nat, hardwareConcurrency: nat, before: seq<Action>) returns (run: seq<Action>)
    requires IsRun(Init(poolSize, hardwareConcurrency), before)
    requires !After(Init(poolSize, hardwareConcurrency), before).stopper.Joining?
    ensures var s := After(Init(poolSize, hardwareConcurrency), before);
      && run != [] && run[0] == BeginStop && IsRun(s, run)
      && After(s, run).done && After(s, run).stopper.Stopped?
  {
    hide Init, Fifo, OnceEach, AtRest;
    InvariantInit(poolSize, hardwareConcurrency);
    InvariantRun(Init(poolSize, hardwareConcurrency), before);
    var s := After(Init(poolSize, hardwareConcurrency), before);
    InvariantStep(s, BeginStop);
    var rest := LeadToRest(Next(s, BeginStop));
    FlagStays(Next(s, BeginStop), rest);
    AtRestIsOver(After(Next(s, BeginStop), rest));
    run := [BeginStop] + rest;
    assert run[1..] == rest;
  }

  /**
   * Once `stop` has returned nothing runs, nothing can run, and what was not
   * executed is the queue: a suffix of what was added.
   */
  lemma {:induction false} NothingRunsAfterStop(poolSize: nat, hardwareConcurrency: nat, run: seq<Action>, a: Action)
    requires IsRun(Init(poolSize, hardwareConcurrency), run)
    requires After(Init(poolSize, hardwareConcurrency), run).stopper.Stopped?
    ensures var s := After(Init(poolSize, hardwareConcurrency), run);
      && Held(s.workers) == multiset{}
      && (a.ByWorker() ==> !Enabled(s, a))
      && |s.dequeued| <= s.added
      && multiset(s.executed) == multiset(Iota(s.added)[..|s.dequeued|])
      && s.tasks == Iota(s.added)[|s.dequeued|..]
  {
    hide Init, IsRun, Held, Iota, Fifo;
    InvariantInit(poolSize, hardwareConcurrency);
    InvariantRun(Init(poolSize, hardwareConcurrency), run);
    DequeuedInOrder(poolSize, hardwareConcurrency, run);
    var s := After(Init(poolSize, hardwareConcurrency), run);
    hide After;
    HeldNothing(s.workers);
    assert multiset(s.executed) + multiset{} == multiset(s.executed);
  }

  // ---------- Without a stop the queue drains ----------

  function Pace(worker: Worker): nat {
    match worker
    case Running(task) => 3
    case AtTest => 2
    case Waiting => 2
    case AtQueue => 1
    case Exited => 0
  }

  /** An upper bound for the steps of all workers before the queue is empty. */
  function DrainSteps(s: State): nat {
    5 * |s.tasks| + Sum(s.workers, Pace)
  }

  lemma DrainStepCounts(s: State, a: Action)
    requires Enabled(s, a) && !a.Add? && s.tasks != []
    ensures DrainSteps(Next(s, a)) + (if a.ByWorker() then 1 else 0) <= DrainSteps(s)
    ensures |Next(s, a).tasks| <= |s.tasks|
  {
    hide Sum;
    if a.ByWorker() {
      var t := Next(s, a);
      assert t.workers == s.workers[a.w := t.workers[a.w]];
      SumUpdate(s.workers, a.w, t.workers[a.w], Pace);
    }
  }

  function WorkerSteps(run: seq<Action>): nat {
    if run == [] then 0 else (if run[0].ByWorker() then 1 else 0) + WorkerSteps(run[1..])
  }

  /**
   * As long as nothing is added and tasks are queued, every step of a worker
   * brings the queue nearer to empty: the workers cannot be busy with waiting.
   */
  lemma {:induction false} QueueDrains(s: State, run: seq<Action>)
    requires IsRun(s, run) && forall i :: 0 <= i < |run| ==> !run[i].Add?
    ensures After(s, run).tasks != [] ==> WorkerSteps(run) + DrainSteps(After(s, run)) <= DrainSteps(s)
    ensures |After(s, run).tasks| <= |s.tasks|
    decreases |run|
  {
    hide DrainSteps;
    if run != [] {
      var t := Next(s, run[0]);
      QueueDrains(t, run[1..]);
      if s.tasks != [] {
        DrainStepCounts(s, run[0]);
      }
    }
  }

  /**
   * From any reachable state, workers that make more moves than the bound, while
   * nothing is added, have emptied the queue; and when none of them holds a task any
   * more, every task that was ever added has been executed once.
   */
  lemma {:induction false} DrainEnds(poolSize: nat, hardwareConcurrency: nat, before: seq<Action>, run: seq<Action>)
    requires IsRun(Init(poolSize, hardwareConcurrency), before)
    requires IsRun(After(Init(poolSize, hardwareConcurrency), before), run)
    requires forall i :: 0 <= i < |run| ==> !run[i].Add?
    requires WorkerSteps(run) > DrainSteps(After(Init(poolSize, hardwareConcurrency), before))
    ensures var t := After(After(Init(poolSize, hardwareConcurrency), before), run);
      && t.tasks == [] && t.dequeued == Iota(t.added)
      && ((forall w :: 0 <= w < |t.workers| ==> !t.workers[w].Running?) ==> multiset(t.executed) == multiset(Iota(t.added)))
  {
    hide Init, IsRun, WorkerSteps, DrainSteps, Shutdown, Held, Iota;
    InvariantInit(poolSize, hardwareConcurrency);
    InvariantRun(Init(poolSize, hardwareConcurrency), before);
    var s := After(Init(poolSize, hardwareConcurrency), before);
    hide After;
    InvariantRun(s, run);
    QueueDrains(s, run);
    var t := After(s, run);
    assert t.dequeued + [] == t.dequeued;
    if forall w :: 0 <= w < |t.workers| ==> !t.workers[w].Running? {
      HeldNothing(t.workers);
      assert multiset(t.executed) + multiset{} == multiset(t.executed);
    }
  }

  // ---------- How many tasks run at a time ----------

  lemma {:induction false} HeldAtMost(workers: seq<Worker>)
    ensures |Held(workers)| <= |workers|
  {
    if workers != [] {
      HeldAtMost(workers[1..]);
    }
  }

  lemma {:induction false} HeldByAll(workers: seq<Worker>)
    requires forall w :: 0 <= w < |workers| ==> workers[w].Running?
    ensures |Held(workers)| == |workers|
  {
    if workers != [] {
      HeldByAll(workers[1..]);
    }
  }

  lemma {:induction false} SameThreads(s: State, run: seq<Action>)
    requires IsRun(s, run)
    ensures |After(s, run).workers| == |s.workers|
    decreases |run|
  {
    if run != [] {
      SameThreads(Next(s, run[0]), run[1..]);
    }
  }

  lemma {:induction false} RunOn(s: State, first: seq<Action>, second: seq<Action>)
    requires IsRun(s, first) && IsRun(After(s, first), second)
    ensures IsRun(s, first + second) && After(s, first + second) == After(After(s, first), second)
    decreases |first|
  {
    if first == [] {
      assert first + second == second;
    } else {
      assert (first + second)[1..] == first[1..] + second;
      RunOn(Next(s, first[0]), first[1..], second);
    }
  }

  /** The first `k` workers hold a task, and there is one queued for each of the others, which are at their first test. */
  ghost predicate Busy(s: State, k: nat) {
    && !s.done && k <= |s.workers| && |s.workers| - k <= |s.tasks|
    && forall w :: 0 <= w < |s.workers| ==> if w < k then s.workers[w].Running? else s.workers[w].AtTest?
  }

  lemma {:induction false} AddTasks(s: State, m: nat) returns (run: seq<Action>)
    ensures IsRun(s, run) && After(s, run).workers == s.workers && After(s, run).done == s.done
    ensures |After(s, run).tasks| == |s.tasks| + m
    decreases m
  {
    if m == 0 {
      run := [];
    } else {
      var rest := AddTasks(Next(s, Add), m - 1);
      run := [Add] + rest;
      assert run[1..] == rest;
    }
  }

  lemma {:induction false} MakeBusy(s: State, k: nat) returns (run: seq<Action>)
    requires Busy(s, k)
    ensures IsRun(s, run) && Busy(After(s, run), |s.workers|) && |After(s, run).workers| == |s.workers|
    decreases |s.workers| - k
  {
    if k == |s.workers| {
      run := [];
    } else {
      var tested := Next(s, Test(k));
      var taken := Next(tested, Get(k));
      var rest := MakeBusy(taken, k + 1);
      run := [Test(k), Get(k)] + rest;
      assert run[1..] == [Get(k)] + rest && run[1..][1..] == rest;
    }
  }

  /** At most `n` tasks are in hand at a time, and some run has that many in hand. */
  ghost predicate RunsAtATime(s: State, n: nat) {
    && (forall run :: IsRun(s, run) ==> |Held(After(s, run).workers)| <= n)
    && (exists run :: IsRun(s, run) && |Held(After(s, run).workers)| == n)
  }

  lemma {:induction false} AllWorkersRun(s: State)
    requires !s.done && forall w :: 0 <= w < |s.workers| ==> s.workers[w].AtTest?
    ensures RunsAtATime(s, |s.workers|)
  {
    forall run | IsRun(s, run) ensures |Held(After(s, run).workers)| <= |s.workers| {
      SameThreads(s, run);
      HeldAtMost(After(s, run).workers);
    }
    var adds := AddTasks(s, |s.workers|);
    var takes := MakeBusy(After(s, adds), 0);
    RunOn(s, adds, takes);
    HeldByAll(After(s, adds + takes).workers);
  }

  /** A pool executes as many tasks at a time as was asked for, and with size zero as many as the hardware can. */
  lemma {:induction false} PoolSizeIsUsed(poolSize: nat, hardwareConcurrency: nat)
    ensures poolSize > 0 ==> RunsAtATime(Init(poolSize, hardwareConcurrency), poolSize)
    ensures RunsAtATime(Init(0, hardwareConcurrency), hardwareConcurrency)
  {
    hide RunsAtATime;
    AllWorkersRun(Init(poolSize, hardwareConcurrency));
    AllWorkersRun(Init(0, hardwareConcurrency));
  }

  /** With a size, or hardware that runs a thread, some worker can move in every reachable state before `stop` is called. */
  lemma {:induction false} SomebodyMoves(poolSize: nat, hardwareConcurrency: nat, run: seq<Action>) returns (a: Action)
    requires poolSize > 0 || hardwareConcurrency > 0
    requires IsRun(Init(poolSize, hardwareConcurrency), run)
    requires !After(Init(poolSize, hardwareConcurrency), run).done
    ensures a.ByWorker() && Enabled(After(Init(poolSize, hardwareConcurrency), run), a)
  {
    hide IsRun, After;
    InvariantInit(poolSize, hardwareConcurrency);
    InvariantRun(Init(poolSize, hardwareConcurrency), run);
    SameThreads(Init(poolSize, hardwareConcurrency), run);
    var s := After(Init(poolSize, hardwareConcurrency), run);
    NobodyIsStuck(s, 0);
    a := ActionOf(s.workers[0], 0);
  }

  /**
   * A worker on its way to the queue keeps at it: its next move takes the front task if there is one and it
   * is not just waking up, also when the flag is set; it exits only from an empty queue with the flag set.
   */
  lemma OnItsWayTakesTheFront(s: State, a: Action)
    requires Enabled(s, a) && a.ByWorker() && OnItsWay(s.workers[a.w])
    ensures var t := Next(s, a);
            var me := t.workers[a.w];
            && (me.Running? <==> s.workers[a.w].AtQueue? && s.tasks != [])
            && (me.Running? ==> s.tasks == [me.task] + t.tasks)
            && (!me.Running? ==> t.tasks == s.tasks)
            && (me.Exited? <==> s.workers[a.w].AtQueue? && s.tasks == [] && s.done)
            && (me.Waiting? <==> s.workers[a.w].AtQueue? && s.tasks == [] && !s.done)
            && !me.AtTest?
  {
  }

  // ---------- The pool object ----------

  /**
   * The shared fields of the pool. Each method is one atomic step: a region that
   * holds the mutex, or one access to the flag.
   */
  class Executor {
    var tasks: seq<Task>
    var done: bool
    var workers: seq<Worker>
    var stopper: Stopper
    var added: nat
    ghost var dequeued: seq<Task>
    ghost var executed: seq<Task>

    ghost function View(): State
      reads this
    {
      State(added, tasks, done, workers, stopper, dequeued, executed)
    }

    constructor (poolSize: nat, hardwareConcurrency: nat)
      ensures View() == Init(poolSize, hardwareConcurrency) && Invariant(View())
    {
      var n := if poolSize == 0 then hardwareConcurrency else poolSize;
      tasks, done, stopper, added, dequeued, executed := [], false, Idle, 0, [], [];
      workers := seq(n, i => AtTest);
      new;
      InvariantInit(poolSize, hardwareConcurrency);
    }

    method AddTask() returns (task: Task)
      requires Invariant(View())
      modifies this
      ensures View() == Next(old(View()), Add) && Invariant(View()) && task == old(added)
    {
      InvariantStep(View(), Add);
      task := added;
      tasks := tasks + [task];
      added := added + 1;
    }

    /** The first step of `stop`. */
    method SetDone()
      requires Invariant(View()) && Enabled(View(), BeginStop)
      modifies this
      ensures View() == Next(old(View()), BeginStop) && Invariant(View())
    {
      InvariantStep(View(), BeginStop);
      done := true;
      stopper := Joining(0);
    }

    /** `stop` has joined one more thread, or returns. */
    method JoinNext()
      requires Invariant(View()) && Enabled(View(), Join)
      modifies this
      ensures View() == Next(old(View()), Join) && Invariant(View())
    {
      InvariantStep(View(), Join);
      if stopper.next < |workers| {
        stopper := Joining(stopper.next + 1);
      } else {
        stopper := Stopped;
      }
    }

    /** The loop test of `worker`. */
    method TestDone(w: nat)
      requires Invariant(View()) && Enabled(View(), Test(w))
      modifies this
      ensures View() == Next(old(View()), Test(w)) && Invariant(View())
    {
      InvariantStep(View(), Test(w));
      if !done {
        workers := workers[w := AtQueue];
      } else {
        workers := workers[w := Exited];
      }
    }

    /** `get`, from one acquisition of the mutex to its release. */
    method GetTask(w: nat)
      requires Invariant(View()) && Enabled(View(), Get(w))
      modifies this
      ensures View() == Next(old(View()), Get(w)) && Invariant(View())
    {
      hide Invariant;
      InvariantStep(View(), Get(w));
      if tasks == [] {
        if done {
          workers := workers[w := Exited];
        } else {
          workers := workers[w := Waiting];
        }
      } else {
        var res := tasks[0];
        tasks := tasks[1..];
        dequeued := dequeued + [res];
        workers := workers[w := Running(res)];
      }
    }

    method WakeUp(w: nat)
      requires Invariant(View()) && Enabled(View(), Wake(w))
      modifies this
      ensures View() == Next(old(View()), Wake(w)) && Invariant(View())
    {
      InvariantStep(View(), Wake(w));
      workers := workers[w := AtQueue];
    }

    /** A task returns; what it throws stays in its future. */
    method FinishTask(w: nat)
      requires Invariant(View()) && Enabled(View(), Finish(w))
      modifies this
      ensures View() == Next(old(View()), Finish(w)) && Invariant(View())
    {
      InvariantStep(View(), Finish(w));
      executed := executed + [workers[w].task];
      workers := workers[w := AtTest];
    }
  }
}
