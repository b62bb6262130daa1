/**
 The prefetch pipeline on the thread pool itself.

 `Prefetch` lets a free worker take a queued task at any time. Here the workers are those of
 `ThreadPool`: they sleep on its condition variable, enqueue wakes one of them, and a notification
 that finds nobody asleep is lost. Every run here is a run there and every run there can be
 carried out here, without relying on spurious wake-ups of the workers, so what is proved of
 `Prefetch` holds of the pipeline with its pool.
 */
module PrefetchOnPool {
  import opened Bytes
  import opened ThreadPool
  import P = Prefetch

  type Feed = P.Feed

  datatype State = State(
    pool: Pool<nat>,       // its tasks are the numbers of their sources
    fetched: seq<bool>,    // by worker: the task it runs has fetched its frame
    sources: seq<P.Source>,
    loop: P.Loop)

  datatype Step =
    | StartOne(s: nat)          // the constructor's CacheFrame, up to the end of enqueue's locked section
    | Refill                    // the same at the end of ReadFrame
    | Worker(a: Action<nat>)    // enqueue's notify_one, or a worker's test of its wait predicate or wake-up
    | Fetch(w: nat)             // the locked section of the task that worker w runs
    | Return(w: nat)            // its notify_all, and its end
    | Tick(s: nat)
    | Test                      // ReadFrame tests its wait predicate
    | WakeReader                // a spurious wake-up of ReadFrame

  function Init(sources: nat, workers: nat): State {
    State(Start(workers), seq(workers, _ => false), P.Init(sources).sources, P.Idle)
  }

  predicate CanStep(st: State, step: Step) {
    match step
    case StartOne(s) => s < |st.sources| && 0 < st.sources[s].starting
    case Refill => st.loop.Refilling?
    case Worker(a) => (a.NotifyOne? || a.Check? || a.WakeUnasked?) && Enabled(st.pool, a)
    case Fetch(w) => Runs(st, w, false)
    case Return(w) => Runs(st, w, true)
    case Tick(s) => s < |st.sources| && st.loop.Idle? && forall i :: 0 <= i < |st.sources| ==> st.sources[i].starting == 0
    case Test => st.loop.Checking? && st.loop.s < |st.sources|
    case WakeReader => st.loop.Blocked?
  }

  /** Worker w runs a task of some source, with its frame fetched or not. */
  predicate Runs(st: State, w: nat, fetched: bool) {
    && w < |st.pool.workers| && w < |st.fetched| && st.fetched[w] == fetched
    && st.pool.workers[w].Running? && st.pool.workers[w].task < |st.sources|
  }

  function After(st: State, feed: Feed, step: Step): State
    requires CanStep(st, step) && |st.fetched| == |st.pool.workers|
  {
    match step
    case StartOne(s) =>
      var src := st.sources[s];
      st.(pool := Apply(st.pool, Enqueue(s)), sources := st.sources[s := src.(starting := src.starting - 1)])
    case Refill => st.(pool := Apply(st.pool, Enqueue(st.loop.s)), loop := P.Idle)
    case Worker(a) =>
      st.(pool := Apply(st.pool, a), fetched := if a.Check? then st.fetched[a.w := false] else st.fetched)
    case Fetch(w) =>
      var s := st.pool.workers[w].task;
      st.(fetched := st.fetched[w := true], sources := st.sources[s := P.Fetched(st.sources[s], feed(s, st.sources[s].fetched))])
    case Return(w) =>
      st.(pool := Apply(st.pool, Finish(w)), loop := P.Woken(st.loop, st.pool.workers[w].task))
    case Tick(s) => st.(loop := P.Checking(s))
    case Test =>
      var s := st.loop.s;
      if st.sources[s].frames == [] then st.(loop := P.Blocked(s))
      else st.(sources := st.sources[s := P.Taken(st.sources[s])], loop := P.Refilling(s))
    case WakeReader => st.(loop := P.Checking(st.loop.s))
  }

  ghost predicate Run(st: State, feed: Feed, steps: seq<Step>, end: State)
    decreases |steps|
  {
    if steps == [] then st == end
    else && |st.fetched| == |st.pool.workers| && CanStep(st, steps[0])
         && Run(After(st, feed, steps[0]), feed, steps[1..], end)
  }

  /** The pool serves: it is not being shut down. */
  ghost predicate Serving(st: State) {
    ThreadPool.Invariant(st.pool) && !st.pool.stop && |st.fetched| == |st.pool.workers|
  }

  // ----- What the workers hold -----

  function Holding(w: ThreadPool.Worker<nat>, f: bool, fetched: bool): multiset<nat> {
    if w.Running? && f == fetched then multiset{w.task} else multiset{}
  }

  /** The tasks that workers run, those whose frame has been fetched or the others. */
  function Tasks(ws: seq<ThreadPool.Worker<nat>>, fs: seq<bool>, fetched: bool): multiset<nat>
    requires |ws| == |fs|
  {
    if ws == [] then multiset{} else Holding(ws[0], fs[0], fetched) + Tasks(ws[1..], fs[1..], fetched)
  }

  lemma {:induction false} TasksUpdate(ws: seq<ThreadPool.Worker<nat>>, fs: seq<bool>, w: nat, x: ThreadPool.Worker<nat>, f: bool, fetched: bool)
    requires |ws| == |fs| && w < |ws|
    ensures Holding(ws[w], fs[w], fetched) <= Tasks(ws, fs, fetched)
    ensures Tasks(ws[w := x], fs[w := f], fetched)
         == Tasks(ws, fs, fetched) - Holding(ws[w], fs[w], fetched) + Holding(x, f, fetched)
    decreases |ws|
  {
    hide Holding;
    var rest, gone, come := Tasks(ws[1..], fs[1..], fetched), Holding(ws[w], fs[w], fetched), Holding(x, f, fetched);
    if w == 0 {
      assert ws[w := x][1..] == ws[1..] && fs[w := f][1..] == fs[1..];
      SwapFirst(gone, rest, come);
    } else {
      assert ws[w := x][1..] == ws[1..][w - 1 := x] && fs[w := f][1..] == fs[1..][w - 1 := f];
      TasksUpdate(ws[1..], fs[1..], w - 1, x, f, fetched);
      SwapLater(Holding(ws[0], fs[0], fetched), rest, gone, come);
    }
    hide *;
  }

  lemma SwapFirst(gone: multiset<nat>, rest: multiset<nat>, come: multiset<nat>)
    ensures gone <= gone + rest && come + rest == gone + rest - gone + come
  {
  }

  lemma SwapLater(first: multiset<nat>, rest: multiset<nat>, gone: multiset<nat>, come: multiset<nat>)
    requires gone <= rest
    ensures gone <= first + rest && first + (rest - gone + come) == first + rest - gone + come
  {
  }

  lemma {:induction false} NoTasks(ws: seq<ThreadPool.Worker<nat>>, fs: seq<bool>, fetched: bool)
    requires |ws| == |fs| && forall w :: 0 <= w < |ws| ==> !ws[w].Running?
    ensures Tasks(ws, fs, fetched) == multiset{}
    decreases |ws|
  {
    if ws != [] {
      NoTasks(ws[1..], fs[1..], fetched);
    }
  }

  function Busy(ws: seq<ThreadPool.Worker<nat>>): nat {
    if ws == [] then 0 else (if ws[0].Running? then 1 else 0) + Busy(ws[1..])
  }

  lemma {:induction false} TasksAreBusy(ws: seq<ThreadPool.Worker<nat>>, fs: seq<bool>)
    requires |ws| == |fs|
    ensures |Tasks(ws, fs, false)| + |Tasks(ws, fs, true)| == Busy(ws)
    decreases |ws|
  {
    if ws != [] {
      TasksAreBusy(ws[1..], fs[1..]);
      assert |Holding(ws[0], fs[0], false)| + |Holding(ws[0], fs[0], true)| == if ws[0].Running? then 1 else 0;
    }
  }

  lemma {:induction false} AllRunningIff(ws: seq<ThreadPool.Worker<nat>>)
    ensures Busy(ws) <= |ws|
    ensures Busy(ws) == |ws| <==> forall w :: 0 <= w < |ws| ==> ws[w].Running?
    decreases |ws|
  {
    if ws != [] {
      AllRunningIff(ws[1..]);
      assert forall w :: 1 <= w < |ws| ==> ws[w] == ws[1..][w - 1];
    }
  }

  /** All workers are busy if and only if their number is that of the tasks they run. */
  lemma AllBusyIff(ws: seq<ThreadPool.Worker<nat>>, fs: seq<bool>)
    requires |ws| == |fs|
    ensures |Tasks(ws, fs, false)| + |Tasks(ws, fs, true)| <= |ws|
    ensures |Tasks(ws, fs, false)| + |Tasks(ws, fs, true)| == |ws| <==> forall w :: 0 <= w < |ws| ==> ws[w].Running?
  {
    hide Tasks, Busy;
    TasksAreBusy(ws, fs);
    AllRunningIff(ws);
  }

  lemma {:induction false} SomeoneHolds(ws: seq<ThreadPool.Worker<nat>>, fs: seq<bool>, s: nat, fetched: bool) returns (w: nat)
    requires |ws| == |fs| && s in Tasks(ws, fs, fetched)
    ensures w < |ws| && ws[w] == Running(s) && fs[w] == fetched
    decreases |ws|
  {
    if s in Holding(ws[0], fs[0], fetched) {
      w := 0;
    } else {
      w := SomeoneHolds(ws[1..], fs[1..], s, fetched);
      w := w + 1;
    }
  }

  // ----- The state as Prefetch sees it -----

  function View(st: State): P.State
    requires |st.fetched| == |st.pool.workers|
  {
    P.State(st.pool.tasks, Tasks(st.pool.workers, st.fetched, false), Tasks(st.pool.workers, st.fetched, true),
            st.sources, st.loop)
  }

  /** The action of Prefetch that a step carries out, if it is one. */
  function Carried(st: State, step: Step): Option<P.Action>
    requires CanStep(st, step)
  {
    match step
    case StartOne(s) => Some(P.Start(s))
    case Refill => Some(P.Refill)
    case Worker(a) => if a.Check? && st.pool.tasks != [] then Some(P.Dequeue) else None
    case Fetch(w) => Some(P.Fetch(st.pool.workers[w].task))
    case Return(w) => Some(P.Notify(st.pool.workers[w].task))
    case Tick(s) => Some(P.Tick(s))
    case Test => Some(P.Check)
    case WakeReader => Some(P.WakeUnasked)
  }

  lemma StepKeepsServing(st: State, feed: Feed, step: Step)
    requires Serving(st) && CanStep(st, step)
    ensures Serving(After(st, feed, step)) && |After(st, feed, step).pool.workers| == |st.pool.workers|
  {
    hide ThreadPool.Invariant;
    match step
    case StartOne(s) => ThreadPool.StepKeepsInvariant(st.pool, Enqueue(s));
    case Refill => ThreadPool.StepKeepsInvariant(st.pool, Enqueue(st.loop.s));
    case Worker(a) => ThreadPool.StepKeepsInvariant(st.pool, a);
    case Return(w) => ThreadPool.StepKeepsInvariant(st.pool, Finish(w));
    case _ =>
  }

  /** A step carries out one action of Prefetch, or none and changes nothing there. */
  ghost predicate CarriesOut(st: State, feed: Feed, step: Step)
    requires |st.fetched| == |st.pool.workers| && CanStep(st, step)
  {
    var next, workers := After(st, feed, step), |st.pool.workers|;
    && |next.fetched| == |next.pool.workers|
    && match Carried(st, step) {
         case None => View(next) == View(st)
         case Some(a) => P.Enabled(View(st), workers, a) && View(next) == P.Apply(View(st), workers, feed, a)
       }
  }

  lemma StepCarriesOut(st: State, feed: Feed, step: Step)
    requires Serving(st) && CanStep(st, step)
    ensures CarriesOut(st, feed, step)
  {
    match step
    case Worker(Check(w)) =>
      if st.pool.tasks == [] {
        SameView(st, After(st, feed, step), w, Sleeping, false);
      } else {
        TaskCarriesOut(st, feed, w);
      }
    case Worker(NotifyOne(Some(w))) => Wakes(st, feed, NotifyOne(Some(w)), w);
    case Worker(WakeUnasked(w)) => Wakes(st, feed, WakeUnasked(w), w);
    case Worker(_) =>
    case Fetch(w) => FetchCarriesOut(st, feed, w);
    case Return(w) => ReturnCarriesOut(st, feed, w);
    case _ => LoopCarriesOut(st, feed, step);
  }

  lemma Wakes(st: State, feed: Feed, a: Action<nat>, w: nat)
    requires |st.fetched| == |st.pool.workers| && CanStep(st, Worker(a)) && (a == NotifyOne(Some(w)) || a == WakeUnasked(w))
    ensures CarriesOut(st, feed, Worker(a))
  {
    hide Tasks, View;
    assert st.fetched == st.fetched[w := st.fetched[w]];
    SameView(st, After(st, feed, Worker(a)), w, Awake, st.fetched[w]);
  }

  lemma LoopCarriesOut(st: State, feed: Feed, step: Step)
    requires |st.fetched| == |st.pool.workers| && !st.pool.stop && CanStep(st, step)
    requires !step.Worker? && !step.Fetch? && !step.Return?
    ensures CarriesOut(st, feed, step)
  {
    hide Tasks;
  }

  /** Worker w becomes x. */
  lemma BothUpdate(ws: seq<ThreadPool.Worker<nat>>, fs: seq<bool>, w: nat, x: ThreadPool.Worker<nat>, f: bool)
    requires |ws| == |fs| && w < |ws|
    ensures Holding(ws[w], fs[w], false) <= Tasks(ws, fs, false) && Holding(ws[w], fs[w], true) <= Tasks(ws, fs, true)
    ensures Tasks(ws[w := x], fs[w := f], false) == Tasks(ws, fs, false) - Holding(ws[w], fs[w], false) + Holding(x, f, false)
    ensures Tasks(ws[w := x], fs[w := f], true) == Tasks(ws, fs, true) - Holding(ws[w], fs[w], true) + Holding(x, f, true)
  {
    TasksUpdate(ws, fs, w, x, f, false);
    TasksUpdate(ws, fs, w, x, f, true);
  }

  lemma FetchCarriesOut(st: State, feed: Feed, w: nat)
    requires |st.fetched| == |st.pool.workers| && CanStep(st, Fetch(w))
    ensures CarriesOut(st, feed, Fetch(w))
  {
    hide Tasks;
    var task, next := st.pool.workers[w].task, After(st, feed, Fetch(w));
    BothUpdate(st.pool.workers, st.fetched, w, st.pool.workers[w], true);
    assert st.pool.workers[w := st.pool.workers[w]] == st.pool.workers;
    assert View(next).running == View(st).running - multiset{task};
    assert View(next).notifying == View(st).notifying + multiset{task};
  }

  lemma ReturnCarriesOut(st: State, feed: Feed, w: nat)
    requires |st.fetched| == |st.pool.workers| && CanStep(st, Return(w))
    ensures CarriesOut(st, feed, Return(w))
  {
    hide Tasks;
    BothUpdate(st.pool.workers, st.fetched, w, Awake, true);
    assert st.fetched[w := true] == st.fetched;
  }

  /** A worker wakes or goes to sleep. */
  lemma SameView(st: State, next: State, w: nat, x: ThreadPool.Worker<nat>, f: bool)
    requires |st.fetched| == |st.pool.workers| && w < |st.fetched| && !st.pool.workers[w].Running? && !x.Running?
    requires next.pool.workers == st.pool.workers[w := x] && next.fetched == st.fetched[w := f]
    requires next.pool.tasks == st.pool.tasks && next.sources == st.sources && next.loop == st.loop
    ensures |next.fetched| == |next.pool.workers| && View(next) == View(st)
  {
    hide Tasks;
    BothUpdate(st.pool.workers, st.fetched, w, x, f);
  }

  /** A worker takes the first task. */
  lemma TaskCarriesOut(st: State, feed: Feed, w: nat)
    requires |st.fetched| == |st.pool.workers| && CanStep(st, Worker(Check(w))) && st.pool.tasks != []
    ensures CarriesOut(st, feed, Worker(Check(w)))
  {
    hide Tasks;
    TakenView(st, After(st, feed, Worker(Check(w))), w, st.pool.tasks[0]);
    SomeoneIsFree(st.pool.workers, st.fetched, w);
  }

  lemma TakenView(st: State, next: State, w: nat, task: nat)
    requires |st.fetched| == |st.pool.workers| && w < |st.fetched| && !st.pool.workers[w].Running?
    requires next.pool.workers == st.pool.workers[w := Running(task)] && next.fetched == st.fetched[w := false]
    ensures |next.fetched| == |next.pool.workers|
    ensures View(next).running == View(st).running + multiset{task} && View(next).notifying == View(st).notifying
  {
    hide Tasks;
    BothUpdate(st.pool.workers, st.fetched, w, Running(task), false);
  }

  lemma SomeoneIsFree(ws: seq<ThreadPool.Worker<nat>>, fs: seq<bool>, w: nat)
    requires |ws| == |fs| && w < |ws| && !ws[w].Running?
    ensures |Tasks(ws, fs, false)| + |Tasks(ws, fs, true)| < |ws|
  {
    AllBusyIff(ws, fs);
  }

  lemma ServingFits(st: State)
    requires Serving(st)
    ensures |st.fetched| == |st.pool.workers|
  {
  }

  // ----- Every run is a run of Prefetch -----

  lemma {:induction false} RunIsPrefetchRun(st: State, feed: Feed, steps: seq<Step>, end: State) returns (actions: seq<P.Action>)
    requires Serving(st) && Run(st, feed, steps, end)
    ensures Serving(end) && |end.pool.workers| == |st.pool.workers|
    ensures P.Run(View(st), |st.pool.workers|, feed, actions, View(end))
    decreases |steps|
  {
    hide P.Enabled, P.Apply, Serving, CanStep, After, View;
    assert |st.fetched| == |st.pool.workers| by { ServingFits(st); }
    if steps == [] {
      actions := [];
    } else {
      StepCarriesOut(st, feed, steps[0]);
      StepKeepsServing(st, feed, steps[0]);
      var rest := RunIsPrefetchRun(After(st, feed, steps[0]), feed, steps[1..], end);
      match Carried(st, steps[0])
      case None => actions := rest;
      case Some(a) =>
        actions := [a] + rest;
        assert actions[1..] == rest;
    }
  }

  /** And of the pool. */
  lemma {:induction false} RunIsPoolRun(st: State, feed: Feed, steps: seq<Step>, end: State) returns (actions: seq<Action<nat>>)
    requires Run(st, feed, steps, end)
    ensures ThreadPool.Run(st.pool, actions, end.pool)
    decreases |steps|
  {
    hide Apply, Enabled;
    if steps == [] {
      actions := [];
    } else {
      var rest := RunIsPoolRun(After(st, feed, steps[0]), feed, steps[1..], end);
      match PoolAction(st, steps[0])
      case None => actions := rest;
      case Some(a) =>
        actions := [a] + rest;
        assert actions[1..] == rest;
        assert Enabled(st.pool, a) && Apply(st.pool, a) == After(st, feed, steps[0]).pool by { PoolStep(st, feed, steps[0]); }
    }
  }

  function PoolAction(st: State, step: Step): Option<Action<nat>> {
    match step
    case StartOne(s) => Some(Enqueue(s))
    case Refill => if st.loop.Refilling? then Some(Enqueue(st.loop.s)) else None
    case Worker(a) => Some(a)
    case Return(w) => Some(Finish(w))
    case _ => None
  }

  lemma PoolStep(st: State, feed: Feed, step: Step)
    requires |st.fetched| == |st.pool.workers| && CanStep(st, step) && PoolAction(st, step).Some?
    ensures var a := PoolAction(st, step).value; Enabled(st.pool, a) && Apply(st.pool, a) == After(st, feed, step).pool
  {
  }

  // ----- Every run of Prefetch can be carried out -----

  lemma {:induction false} RunAppend(st: State, feed: Feed, first: seq<Step>, mid: State, rest: seq<Step>, end: State)
    requires Run(st, feed, first, mid) && Run(mid, feed, rest, end)
    ensures Run(st, feed, first + rest, end)
    decreases |first|
  {
    hide CanStep, After;
    if first == [] {
      assert first + rest == rest;
    } else {
      assert (first + rest)[1..] == first[1..] + rest;
      RunAppend(After(st, feed, first[0]), feed, first[1..], mid, rest, end);
    }
  }

  lemma OneStep(st: State, feed: Feed, step: Step)
    requires Serving(st) && CanStep(st, step)
    ensures Run(st, feed, [step], After(st, feed, step))
  {
    StepKeepsServing(st, feed, step);
    assert [step][1..] == [] && Run(After(st, feed, step), feed, [], After(st, feed, step));
  }

  /** A wake-up that nothing asked for. */
  predicate Unasked(step: Step) {
    step.WakeReader? || (step.Worker? && step.a.WakeUnasked?)
  }

  function UnaskedIn(steps: seq<Step>): nat {
    if steps == [] then 0 else (if Unasked(steps[0]) then 1 else 0) + UnaskedIn(steps[1..])
  }

  lemma SleepersAreNotified<T>(p: Pool<T>, w: nat)
    requires ThreadPool.Invariant(p) && !p.stop && p.tasks != []
    requires w < |p.workers| && !p.workers[w].Running? && forall i :: 0 <= i < |p.workers| ==> p.workers[i] != Awake
    ensures p.workers[w] == Sleeping && 0 < p.notifies
  {
    assert p.workers[w] in p.workers && Awake !in multiset(p.workers);
  }

  /** When a task is queued and a worker is free, some worker is awake or a notification finds one
      asleep: no wake-up is ever lost. */
  lemma FreeWorkerMoves(st: State) returns (a: Action<nat>)
    requires Serving(st) && st.pool.tasks != []
    requires |View(st).running| + |View(st).notifying| < |st.pool.workers|
    ensures (a.Check? || a.NotifyOne?) && Enabled(st.pool, a)
    ensures a.NotifyOne? ==> a.worker.Some? && forall w :: 0 <= w < |st.pool.workers| ==> st.pool.workers[w] != Awake
  {
    var ws := st.pool.workers;
    AllBusyIff(ws, st.fetched);
    hide Tasks, ThreadPool.Invariant;
    var w :| 0 <= w < |ws| && !ws[w].Running?;
    if awake :| 0 <= awake < |ws| && ws[awake] == Awake {
      a := Check(awake);
    } else {
      SleepersAreNotified(st.pool, w);
      a := NotifyOne(Some(w));
    }
  }

  /** Taking a task, after waking a worker if all that are free are asleep. */
  lemma CarryOutDequeue(st: State, feed: Feed) returns (steps: seq<Step>, end: State)
    requires Serving(st) && P.Enabled(View(st), |st.pool.workers|, P.Dequeue)
    ensures Run(st, feed, steps, end) && Serving(end) && |end.pool.workers| == |st.pool.workers| && UnaskedIn(steps) == 0
    ensures View(end) == P.Apply(View(st), |st.pool.workers|, feed, P.Dequeue)
  {
    var a := FreeWorkerMoves(st);
    if a.Check? {
      steps, end := TakeTask(st, feed, a.w);
    } else {
      var mid := WakeOne(st, feed, a.worker.value);
      hide Serving, P.Apply, P.Enabled, CanStep, After, UnaskedIn;
      steps, end := TakeTask(mid, feed, a.worker.value);
      RunAppend(st, feed, [Worker(a)], mid, steps, end);
      UnaskedAppend([Worker(a)], steps);
      steps := [Worker(a)] + steps;
    }
  }

  lemma TakeTask(st: State, feed: Feed, w: nat) returns (steps: seq<Step>, end: State)
    requires Serving(st) && st.pool.tasks != [] && CanStep(st, Worker(Check(w)))
    ensures Run(st, feed, steps, end) && Serving(end) && |end.pool.workers| == |st.pool.workers| && UnaskedIn(steps) == 0
    ensures P.Enabled(View(st), |st.pool.workers|, P.Dequeue)
    ensures View(end) == P.Apply(View(st), |st.pool.workers|, feed, P.Dequeue)
  {
    var step := Worker(Check(w));
    OneStep(st, feed, step);
    StepCarriesOut(st, feed, step);
    StepKeepsServing(st, feed, step);
    steps, end := [step], After(st, feed, step);
    assert steps[1..] == [] && UnaskedIn([]) == 0;
    hide Serving, View, P.Apply, P.Enabled, CanStep, After, Run;
  }

  lemma IsAwake(st: State, feed: Feed, w: nat)
    requires |st.fetched| == |st.pool.workers| && CanStep(st, Worker(NotifyOne(Some(w))))
    ensures w < |st.pool.workers| && st.pool.workers[w] == Sleeping
    ensures var next := After(st, feed, Worker(NotifyOne(Some(w))));
            && next.pool.workers == st.pool.workers[w := Awake] && next.fetched == st.fetched == st.fetched[w := st.fetched[w]]
            && next.pool.tasks == st.pool.tasks && next.sources == st.sources && next.loop == st.loop
            && CanStep(next, Worker(Check(w)))
  {
  }

  lemma WakeOne(st: State, feed: Feed, w: nat) returns (mid: State)
    requires Serving(st) && CanStep(st, Worker(NotifyOne(Some(w))))
    ensures Run(st, feed, [Worker(NotifyOne(Some(w)))], mid) && UnaskedIn([Worker(NotifyOne(Some(w)))]) == 0
    ensures Serving(mid) && View(mid) == View(st) && mid.pool.tasks == st.pool.tasks && |mid.pool.workers| == |st.pool.workers|
    ensures CanStep(mid, Worker(Check(w)))
  {
    var step := Worker(NotifyOne(Some(w)));
    mid := After(st, feed, step);
    IsAwake(st, feed, w);
    assert [step][1..] == [] && UnaskedIn([]) == 0;
    hide View, Run, ThreadPool.Invariant, After, CanStep;
    OneStep(st, feed, step);
    StepKeepsServing(st, feed, step);
    SameView(st, mid, w, Awake, st.fetched[w]);
  }

  /** The step for an action other than taking a task. */
  lemma StepFor(st: State, a: P.Action) returns (step: Step)
    requires Serving(st) && P.Enabled(View(st), |st.pool.workers|, a) && !a.Dequeue?
    ensures CanStep(st, step) && Carried(st, step) == Some(a) && (Unasked(step) <==> a.WakeUnasked?)
  {
    match a
    case Start(s) => step := StartOne(s);
    case Fetch(s) =>
      var w := SomeoneHolds(st.pool.workers, st.fetched, s, false);
      step := Fetch(w);
    case Notify(s) =>
      var w := SomeoneHolds(st.pool.workers, st.fetched, s, true);
      step := Return(w);
    case Tick(s) => step := Tick(s);
    case Check => step := Test;
    case Refill => step := Refill;
    case WakeUnasked => step := WakeReader;
  }

  lemma CarryOut(st: State, feed: Feed, a: P.Action) returns (steps: seq<Step>, end: State)
    requires Serving(st) && P.Enabled(View(st), |st.pool.workers|, a)
    ensures Run(st, feed, steps, end) && Serving(end) && |end.pool.workers| == |st.pool.workers|
    ensures UnaskedIn(steps) == if a.WakeUnasked? then 1 else 0
    ensures View(end) == P.Apply(View(st), |st.pool.workers|, feed, a)
  {
    if a.Dequeue? {
      steps, end := CarryOutDequeue(st, feed);
    } else {
      var step := StepFor(st, a);
      OneStep(st, feed, step);
      StepCarriesOut(st, feed, step);
      StepKeepsServing(st, feed, step);
      steps, end := [step], After(st, feed, step);
      assert UnaskedIn([]) == 0 && steps[1..] == [];
    }
  }

  lemma {:induction false} UnaskedAppend(first: seq<Step>, rest: seq<Step>)
    ensures UnaskedIn(first + rest) == UnaskedIn(first) + UnaskedIn(rest)
  {
    if first == [] {
      assert first + rest == rest;
    } else {
      assert (first + rest)[1..] == first[1..] + rest;
      UnaskedAppend(first[1..], rest);
    }
  }

  lemma {:induction false} PrefetchRunIsRun(st: State, feed: Feed, actions: seq<P.Action>, last: P.State) returns (steps: seq<Step>, end: State)
    requires Serving(st) && P.Run(View(st), |st.pool.workers|, feed, actions, last)
    ensures Run(st, feed, steps, end) && Serving(end) && |end.pool.workers| == |st.pool.workers| && View(end) == last
    ensures UnaskedIn(steps) == P.UnaskedWakeUps(actions)
    decreases |actions|
  {
    if actions == [] {
      steps, end := [], st;
    } else {
      hide Serving, View, P.Enabled, P.Apply;
      var first, mid := CarryOut(st, feed, actions[0]);
      var rest;
      rest, end := PrefetchRunIsRun(mid, feed, actions[1..], last);
      RunAppend(st, feed, first, mid, rest, end);
      UnaskedAppend(first, rest);
      steps := first + rest;
    }
  }

  // ----- The promises -----

  lemma InitView(sources: nat, workers: nat)
    ensures Serving(Init(sources, workers)) && View(Init(sources, workers)) == P.Init(sources)
    ensures |Init(sources, workers).pool.workers| == workers
  {
    var st := Init(sources, workers);
    assert forall w :: w in st.pool.workers ==> w == Awake;
    NoTasks(st.pool.workers, st.fetched, false);
    NoTasks(st.pool.workers, st.fetched, true);
  }

  /** With sleeping workers and notifications too: the frames delivered and the frames queued are
      together the non-empty results fetched so far, in file order. */
  lemma PoolRefinesReading(sources: nat, workers: nat, feed: Feed, steps: seq<Step>, st: State, s: nat)
    requires Run(Init(sources, workers), feed, steps, st) && s < sources
    ensures |st.sources| == sources
    ensures st.sources[s].delivered + st.sources[s].frames == P.NonEmpty(feed, s, st.sources[s].fetched)
  {
    InitView(sources, workers);
    hide P.NonEmpty, P.Run, Run, P.Init, Init;
    var actions := RunIsPrefetchRun(Init(sources, workers), feed, steps, st);
    P.PrefetchRefinesReading(sources, workers, feed, actions, View(st), s);
  }

  /** Nothing can happen any more, except that somebody wakes without having been notified. */
  ghost predicate Stuck(st: State) {
    forall step: Step :: CanStep(st, step) ==> Unasked(step)
  }

  /** The pool does not hold anything up: if nothing can happen here, nothing can happen in Prefetch. */
  lemma StuckIsStuck(st: State)
    requires Serving(st) && Stuck(st)
    ensures P.Stuck(View(st), |st.pool.workers|)
  {
    forall a: P.Action | P.Enabled(View(st), |st.pool.workers|, a) ensures a.WakeUnasked? {
      if a.Dequeue? {
        var b := FreeWorkerMoves(st);
        assert CanStep(st, Worker(b));
      } else {
        var step := StepFor(st, a);
      }
    }
  }

  /** Awake workers go to sleep and notifications wake them: what is left of that. */
  function Stirring<T(==)>(p: Pool<T>): nat {
    AwakeCount(p) + 2 * p.notifies
  }

  lemma AwakeUpdate<T>(ws: seq<ThreadPool.Worker<T>>, w: nat, x: ThreadPool.Worker<T>)
    requires w < |ws|
    ensures multiset(ws[w := x])[Awake]
         == multiset(ws)[Awake] - (if ws[w] == Awake then 1 else 0) + if x == Awake then 1 else 0
  {
    CountUpdate(ws, w, x);
  }

  lemma StirringAfter<T>(p: Pool<T>, a: Action<T>)
    requires Enabled(p, a) && (a.NotifyOne? || a.Check? || a.WakeUnasked? || a.Finish?)
    ensures if a.NotifyOne? || a.Check? then Stirring(Apply(p, a)) < Stirring(p) else Stirring(Apply(p, a)) == Stirring(p) + 1
  {
    match a
    case Check(w) => AwakeUpdate(p.workers, w, Apply(p, a).workers[w]);
    case NotifyOne(Some(w)) => AwakeUpdate(p.workers, w, Awake);
    case NotifyOne(None) =>
    case WakeUnasked(w) => AwakeUpdate(p.workers, w, Awake);
    case Finish(w) => AwakeUpdate(p.workers, w, Awake);
  }

  /** An upper bound for the steps that can happen while the thread waits, unasked wake-ups aside. */
  function Work(st: State): nat
    requires |st.fetched| == |st.pool.workers|
  {
    2 * P.Wait(View(st)) + Stirring(st.pool)
  }

  /** ReadFrame of source s gets its frame. */
  predicate Delivers(st: State, step: Step, s: nat)
    requires s < |st.sources|
  {
    step.Test? && st.sources[s].frames != []
  }

  lemma StirringStep(st: State, feed: Feed, step: Step)
    requires |st.fetched| == |st.pool.workers| && CanStep(st, step) && !step.StartOne? && !step.Refill?
    ensures var before, behind := Stirring(st.pool), Stirring(After(st, feed, step).pool);
            match step
            case Worker(a) => if a.WakeUnasked? then behind == before + 1 else behind < before
            case Return(_) => behind == before + 1
            case _ => behind == before
  {
    hide Stirring;
    match step
    case Worker(a) => StirringAfter(st.pool, a);
    case Return(w) => StirringAfter(st.pool, Finish(w));
    case _ =>
  }

  lemma WaitStep(st: State, feed: Feed, step: Step, s: nat)
    requires Serving(st) && P.Shape(View(st), |st.pool.workers|) && s < |st.sources| && P.Waits(View(st), s) && CanStep(st, step)
    ensures !step.StartOne? && !step.Refill?
    ensures var next := After(st, feed, step);
            && |next.fetched| == |next.pool.workers| && |next.sources| == |st.sources|
            && if Delivers(st, step, s) then |next.sources[s].delivered| == |st.sources[s].delivered| + 1
               else P.Waits(View(next), s) && next.sources[s].delivered == st.sources[s].delivered
                    && match Carried(st, step)
                       case None => P.Wait(View(next)) == P.Wait(View(st))
                       case Some(a) => if a.WakeUnasked? then P.Wait(View(next)) == P.Wait(View(st)) + 1
                                       else P.Wait(View(next)) < P.Wait(View(st))
  {
    hide Tasks, ThreadPool.Invariant, P.Wait;
    StepCarriesOut(st, feed, step);
    if Carried(st, step).Some? {
      P.WaitingStep(View(st), |st.pool.workers|, feed, Carried(st, step).value, s);
    }
  }

  lemma WaitingStep(st: State, feed: Feed, step: Step, s: nat)
    requires Serving(st) && P.Shape(View(st), |st.pool.workers|) && s < |st.sources| && P.Waits(View(st), s) && CanStep(st, step)
    ensures var next := After(st, feed, step);
            && |next.fetched| == |next.pool.workers| && |next.sources| == |st.sources|
            && if Delivers(st, step, s) then |next.sources[s].delivered| == |st.sources[s].delivered| + 1
               else P.Waits(View(next), s) && next.sources[s].delivered == st.sources[s].delivered
                    && if Unasked(step) then Work(next) <= Work(st) + 2 else Work(next) < Work(st)
  {
    WaitStep(st, feed, step, s);
    ServingFits(st);
    StirringStep(st, feed, step);
    hide P.Shape, Serving, After, View, P.Wait, Stirring, CanStep, P.Waits, Delivers;
  }

  /** A state that runs reach. */
  ghost predicate Invariant(st: State, feed: Feed) {
    Serving(st) && P.Invariant(View(st), |st.pool.workers|, feed)
  }

  lemma RunKeepsInvariant(st: State, feed: Feed, steps: seq<Step>, end: State)
    requires Invariant(st, feed) && Run(st, feed, steps, end)
    ensures Invariant(end, feed) && |end.sources| == |st.sources| && |end.pool.workers| == |st.pool.workers|
    ensures forall s :: 0 <= s < |st.sources| ==> st.sources[s].delivered <= end.sources[s].delivered
  {
    hide P.Invariant, P.Run, Run;
    var actions := RunIsPrefetchRun(st, feed, steps, end);
    P.RunKeepsInvariant(View(st), |st.pool.workers|, feed, actions, View(end));
  }

  /** While ReadFrame waits only boundedly many steps of the workers, their notifications and their
      wake-ups can happen, unasked ones aside, and the only way to run out of steps before it has
      its frame is that the source has had eight empty results. */
  lemma {:induction false} ReadFrameReturns(st: State, feed: Feed, steps: seq<Step>, end: State, s: nat)
    requires Invariant(st, feed) && s < |st.sources| && P.Waits(View(st), s)
    requires st.pool.workers != [] && Run(st, feed, steps, end)
    ensures |end.sources| == |st.sources| && |end.fetched| == |end.pool.workers|
    ensures end.sources[s].delivered == st.sources[s].delivered ==>
              P.Waits(View(end), s) && |steps| + Work(end) <= Work(st) + 3 * UnaskedIn(steps)
    ensures end.sources[s].delivered == st.sources[s].delivered && Stuck(end) ==>
              P.EndsAtEighthEmpty(feed, s, end.sources[s].fetched)
    decreases |steps|
  {
    RunKeepsInvariant(st, feed, steps, end);
    InvariantParts(st, feed);
    InvariantParts(end, feed);
    hide Invariant, P.Invariant, P.Shape, Serving, CanStep, After, Work, Stuck, P.Waits;
    if steps == [] {
      if Stuck(end) {
        StuckIsStuck(end);
        P.StuckMeansEightEmpties(View(end), |end.pool.workers|, feed, s);
      }
    } else {
      var next := After(st, feed, steps[0]);
      WaitingStep(st, feed, steps[0], s);
      assert Invariant(next, feed) && |next.pool.workers| == |st.pool.workers| by { StepKeepsInvariant(st, feed, steps[0]); }
      if Delivers(st, steps[0], s) {
        RunKeepsInvariant(next, feed, steps[1..], end);
        assert next.sources[s].delivered <= end.sources[s].delivered;
      } else {
        ReadFrameReturns(next, feed, steps[1..], end, s);
      }
    }
  }

  lemma StepKeepsInvariant(st: State, feed: Feed, step: Step)
    requires Invariant(st, feed) && CanStep(st, step)
    ensures Invariant(After(st, feed, step), feed) && |After(st, feed, step).pool.workers| == |st.pool.workers|
  {
    hide P.Invariant;
    OneStep(st, feed, step);
    RunKeepsInvariant(st, feed, [step], After(st, feed, step));
  }

  lemma InvariantParts(st: State, feed: Feed)
    requires Invariant(st, feed)
    ensures Serving(st) && |st.fetched| == |st.pool.workers| && View(st).sources == st.sources
    ensures P.Invariant(View(st), |st.pool.workers|, feed) && P.Shape(View(st), |st.pool.workers|)
  {
  }

  /** Some continuation delivers a frame to the thread. */
  ghost predicate CanReturn(st: State, feed: Feed, s: nat)
    requires s < |st.sources|
  {
    exists steps, end ::
      Run(st, feed, steps, end) && |end.sources| == |st.sources| && end.sources[s].delivered != st.sources[s].delivered
  }

  /** A waiting ReadFrame can still get a frame if and only if its source has more to deliver before
      its eighth empty result. */
  lemma ReadFrameCanReturnIff(st: State, feed: Feed, s: nat)
    requires Invariant(st, feed) && s < |st.sources| && P.Waits(View(st), s) && st.pool.workers != []
    ensures CanReturn(st, feed, s) <==> !P.Exhausted(feed, s, st.sources[s].delivered)
  {
    InvariantParts(st, feed);
    P.ReadFrameCanReturnIff(View(st), |st.pool.workers|, feed, s);
    hide P.Invariant, P.Shape, Serving, P.Exhausted, P.Run, Run, P.Waits;
    if CanReturn(st, feed, s) {
      var steps, end :|
        Run(st, feed, steps, end) && |end.sources| == |st.sources| && end.sources[s].delivered != st.sources[s].delivered;
      var actions := RunIsPrefetchRun(st, feed, steps, end);
      assert View(end).sources == end.sources by { ServingFits(end); }
      assert P.CanReturn(View(st), |st.pool.workers|, feed, s);
    }
    if P.CanReturn(View(st), |st.pool.workers|, feed, s) {
      var actions, last :|
        P.Run(View(st), |st.pool.workers|, feed, actions, last) && |last.sources| == |View(st).sources|
        && last.sources[s].delivered != View(st).sources[s].delivered;
      var steps, end := PrefetchRunIsRun(st, feed, actions, last);
      assert View(end).sources == end.sources by { ServingFits(end); }
    }
  }
}
