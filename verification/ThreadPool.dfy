/**
 ThreadPool as a state machine over any number of workers.

 Each section under queue_mutex_ is one atomic step. notify_one and notify_all are steps of
 their own because they happen after the lock is released; a sleeping worker may also wake
 without being notified, as std::condition_variable allows. accepted and started record the
 tasks put in and taken out so far.
 */
module ThreadPool {
  import opened Bytes

  datatype Worker<T> = Sleeping | Awake | Running(task: T) | Returned

  datatype Pool<T> = Pool(
    tasks: seq<T>, stop: bool, workers: seq<Worker<T>>,
    notifies: nat,     // enqueue calls between their push and their notify_one
    broadcast: bool,   // the destructor is between setting stop_ and notify_all
    accepted: seq<T>, started: seq<T>)

  datatype Action<T> =
    | Enqueue(task: T)             // enqueue, up to the end of its locked section
    | NotifyOne(worker: Option<nat>)  // the sleeper that is woken, if there is one
    | Check(w: nat)                // a worker evaluates the wait predicate and acts on it
    | Finish(w: nat)               // task() returns
    | WakeUnasked(w: nat)          // a spurious wake-up
    | Stop                         // the destructor's locked section
    | NotifyAll

  function Start<T>(workers: nat): Pool<T> {
    Pool([], false, seq(workers, _ => Awake), 0, false, [], [])
  }

  predicate Enabled<T(==)>(p: Pool<T>, a: Action<T>) {
    match a
    case Enqueue(_) => true
    case NotifyOne(None) => 0 < p.notifies && Sleeping !in p.workers
    case NotifyOne(Some(w)) => 0 < p.notifies && w < |p.workers| && p.workers[w] == Sleeping
    case Check(w) => w < |p.workers| && p.workers[w] == Awake
    case Finish(w) => w < |p.workers| && p.workers[w].Running?
    case WakeUnasked(w) => w < |p.workers| && p.workers[w] == Sleeping
    case Stop => !p.stop
    case NotifyAll => p.broadcast
  }

  function WakeAll<T>(ws: seq<Worker<T>>): (r: seq<Worker<T>>)
    ensures |r| == |ws|
    ensures forall i :: 0 <= i < |ws| ==> r[i] == if ws[i].Sleeping? then Awake else ws[i]
  {
    seq(|ws|, i requires 0 <= i < |ws| => if ws[i].Sleeping? then Awake else ws[i])
  }

  function Apply<T(==)>(p: Pool<T>, a: Action<T>): Pool<T>
    requires Enabled(p, a)
  {
    match a
    case Enqueue(t) =>
      if p.stop then p  // throws "enqueue on stopped ThreadPool"
      else p.(tasks := p.tasks + [t], accepted := p.accepted + [t], notifies := p.notifies + 1)
    case NotifyOne(None) => p.(notifies := p.notifies - 1)
    case NotifyOne(Some(w)) => p.(notifies := p.notifies - 1, workers := p.workers[w := Awake])
    case Check(w) =>
      if p.tasks == [] && !p.stop then p.(workers := p.workers[w := Sleeping])
      else if p.tasks == [] then p.(workers := p.workers[w := Returned])
      else
        var t := p.tasks[0];
        p.(tasks := p.tasks[1..], started := p.started + [t], workers := p.workers[w := Running(t)])
    case Finish(w) => p.(workers := p.workers[w := Awake])
    case WakeUnasked(w) => p.(workers := p.workers[w := Awake])
    case Stop => p.(stop := true, broadcast := true)
    case NotifyAll => p.(broadcast := false, workers := WakeAll(p.workers))
  }

  ghost predicate Run<T>(p: Pool<T>, actions: seq<Action<T>>, q: Pool<T>)
    decreases |actions|
  {
    if actions == [] then p == q
    else Enabled(p, actions[0]) && Run(Apply(p, actions[0]), actions[1..], q)
  }

  // ----- What every step keeps -----

  function AwakeCount<T(==)>(p: Pool<T>): nat {
    multiset(p.workers)[Awake]
  }

  ghost predicate Invariant<T>(p: Pool<T>) {
    // every accepted task is started at most once, in the order of acceptance, or still queued
    && p.accepted == p.started + p.tasks
    // while a worker sleeps, every queued task has a wake-up of its own on the way
    && (Sleeping in p.workers && !p.broadcast ==> |p.tasks| <= p.notifies + AwakeCount(p))
    // once stopped, sleepers are about to be woken for good
    && (p.broadcast ==> p.stop)
    && (p.stop && Sleeping in p.workers ==> p.broadcast)
    // a worker returns only when there is nothing left to do
    && (Returned in p.workers ==> p.stop && p.tasks == [])
  }

  lemma CountUpdate<T>(ws: seq<Worker<T>>, w: nat, x: Worker<T>)
    requires w < |ws|
    ensures multiset(ws[w := x]) == multiset(ws)[ws[w] := multiset(ws)[ws[w]] - 1] + multiset{x}
    ensures forall y :: y in ws[w := x] ==> y == x || y in ws
  {
  }

  lemma CheckKeepsInvariant<T>(p: Pool<T>, w: nat)
    requires Invariant(p) && Enabled(p, Check(w))
    ensures Invariant(Apply(p, Check(w)))
  {
    if p.tasks != [] {
      CountUpdate(p.workers, w, Running(p.tasks[0]));
      assert p.started + [p.tasks[0]] + p.tasks[1..] == p.accepted;
    } else if p.stop {
      CountUpdate(p.workers, w, Returned);
    } else {
      CountUpdate(p.workers, w, Sleeping);
    }
  }

  lemma StepKeepsInvariant<T>(p: Pool<T>, a: Action<T>)
    requires Invariant(p) && Enabled(p, a)
    ensures Invariant(Apply(p, a))
  {
    match a
    case Enqueue(t) => assert p.started + (p.tasks + [t]) == p.accepted + [t];
    case NotifyOne(Some(w)) => UpKeepsInvariant(p, a, w);
    case Check(w) => CheckKeepsInvariant(p, w);
    case Finish(w) => UpKeepsInvariant(p, a, w);
    case WakeUnasked(w) => UpKeepsInvariant(p, a, w);
    case _ =>
  }

  /** One more worker is up. */
  lemma UpKeepsInvariant<T>(p: Pool<T>, a: Action<T>, w: nat)
    requires Invariant(p) && Enabled(p, a)
    requires a == NotifyOne(Some(w)) || a == Finish(w) || a == WakeUnasked(w)
    ensures Invariant(Apply(p, a))
  {
    CountUpdate(p.workers, w, Awake);
  }

  lemma {:induction false} RunKeepsInvariant<T>(p: Pool<T>, actions: seq<Action<T>>, q: Pool<T>)
    requires Invariant(p) && Run(p, actions, q)
    ensures Invariant(q) && |q.workers| == |p.workers|
    ensures p.accepted <= q.accepted && p.started <= q.started && (p.stop ==> q.stop && q.accepted == p.accepted)
    decreases |actions|
  {
    if actions != [] {
      var next := Apply(p, actions[0]);
      StepKeepsInvariant(p, actions[0]);
      RunKeepsInvariant(next, actions[1..], q);
    }
  }

  // ----- The promises -----

  /** In every reachable state: tasks start in the order in which they were accepted, each one
      once; while a worker sleeps, every queued task has its own wake-up on the way; a non-empty
      queue always has a worker up or a notification pending; workers that have all returned
      have started every accepted task. */
  lemma PoolIsSafe<T>(workers: nat, actions: seq<Action<T>>, p: Pool<T>)
    requires Run(Start(workers), actions, p)
    ensures p.accepted == p.started + p.tasks
    ensures Sleeping in p.workers && !p.broadcast ==> |p.tasks| <= p.notifies + AwakeCount(p)
    ensures workers > 0 && p.tasks != [] ==>
              0 < p.notifies || p.broadcast || exists w :: 0 <= w < |p.workers| && (p.workers[w].Awake? || p.workers[w].Running?)
    ensures workers > 0 && (forall w :: 0 <= w < |p.workers| ==> p.workers[w].Returned?) ==> p.started == p.accepted
  {
    var start: Pool<T> := Start(workers);
    assert forall w :: w in start.workers ==> w == Awake;
    RunKeepsInvariant(start, actions, p);
    if workers > 0 {
      var w := p.workers[0];
      assert w in p.workers;
      if w.Sleeping? && p.tasks != [] && p.notifies == 0 && !p.broadcast {
        assert Awake in multiset(p.workers);
      }
    }
  }

  /** After the destructor has set stop_, nothing is accepted any more. */
  lemma StoppedAcceptsNothing<T>(p: Pool<T>, actions: seq<Action<T>>, q: Pool<T>)
    requires Invariant(p) && p.stop && Run(p, actions, q)
    ensures q.stop && q.accepted == p.accepted
  {
    RunKeepsInvariant(p, actions, q);
  }

  // ----- The destructor's join comes back -----

  function Weight<T>(w: Worker<T>): nat {
    match w
    case Sleeping => 2
    case Awake => 1
    case Running(_) => 2
    case Returned => 0
  }

  function Weights<T>(ws: seq<Worker<T>>): nat {
    if ws == [] then 0 else Weight(ws[0]) + Weights(ws[1..])
  }

  /** What is left to do after stop_: an upper bound for the number of steps. */
  function Remaining<T>(p: Pool<T>): nat {
    3 * |p.tasks| + Weights(p.workers) + p.notifies + if p.broadcast then 1 else 0
  }

  lemma {:induction false} WeightsUpdate<T>(ws: seq<Worker<T>>, w: nat, x: Worker<T>)
    requires w < |ws|
    ensures Weights(ws[w := x]) == Weights(ws) - Weight(ws[w]) + Weight(x)
  {
    if w > 0 {
      assert ws[w := x][1..] == ws[1..][w - 1 := x];
      WeightsUpdate(ws[1..], w - 1, x);
    }
  }

  lemma {:induction false} WeightsWakeAll<T>(ws: seq<Worker<T>>)
    ensures Weights(WakeAll(ws)) <= Weights(ws)
  {
    if ws != [] {
      assert WakeAll(ws)[1..] == WakeAll(ws[1..]);
      WeightsWakeAll(ws[1..]);
    }
  }

  /** Every step of a stopped pool other than a rejected enqueue uses up some of what is left. */
  lemma StoppedStepProgresses<T>(p: Pool<T>, a: Action<T>)
    requires Invariant(p) && p.stop && Enabled(p, a) && !a.Enqueue?
    ensures Remaining(Apply(p, a)) < Remaining(p)
  {
    match a
    case NotifyOne(Some(w)) => WeightsUpdate(p.workers, w, Awake);
    case Check(w) => WeightsUpdate(p.workers, w, if p.tasks == [] then Returned else Running(p.tasks[0]));
    case Finish(w) => WeightsUpdate(p.workers, w, Awake);
    case WakeUnasked(w) => WeightsUpdate(p.workers, w, Awake);
    case NotifyAll => WeightsWakeAll(p.workers);
    case _ =>
  }

  /** As long as some worker has not returned, a step other than a rejected enqueue is enabled. */
  lemma StoppedStepExists<T>(p: Pool<T>) returns (a: Action<T>)
    requires Invariant(p) && p.stop
    requires exists w :: 0 <= w < |p.workers| && !p.workers[w].Returned?
    ensures Enabled(p, a) && !a.Enqueue?
  {
    var w :| 0 <= w < |p.workers| && !p.workers[w].Returned?;
    match p.workers[w]
    case Sleeping => assert Sleeping in p.workers; a := NotifyAll;
    case Awake => a := Check(w);
    case Running(_) => a := Finish(w);
  }

  function Steps<T>(actions: seq<Action<T>>): nat {
    if actions == [] then 0 else (if actions[0].Enqueue? then 0 else 1) + Steps(actions[1..])
  }

  /** Shutdown completes: after stop_ a run has at most Remaining(p) steps (rejected enqueues
      aside), and a run that can go no further has every worker returned, nothing queued and
      every accepted task started. */
  lemma {:induction false} ShutdownCompletes<T>(p: Pool<T>, actions: seq<Action<T>>, q: Pool<T>)
    requires Invariant(p) && p.stop && Run(p, actions, q)
    ensures Steps(actions) <= Remaining(p)
    ensures (forall a: Action<T> :: Enabled(q, a) ==> a.Enqueue?) && q.workers != [] ==>
              && (forall w :: 0 <= w < |q.workers| ==> q.workers[w].Returned?)
              && q.tasks == [] && q.started == p.accepted
    decreases |actions|
  {
    if actions == [] {
      if (forall a: Action<T> :: Enabled(q, a) ==> a.Enqueue?) && q.workers != [] {
        if exists w :: 0 <= w < |q.workers| && !q.workers[w].Returned? {
          var a := StoppedStepExists(q);
        }
        assert q.workers[0] in q.workers;
      }
    } else {
      var next := Apply(p, actions[0]);
      StepKeepsInvariant(p, actions[0]);
      if !actions[0].Enqueue? {
        StoppedStepProgresses(p, actions[0]);
      }
      ShutdownCompletes(next, actions[1..], q);
    }
  }

  /** A notification that is pending can always go out, if only to nobody. */
  lemma NotificationGoesOut<T>(p: Pool<T>) returns (w: Option<nat>)
    requires 0 < p.notifies
    ensures Enabled(p, NotifyOne(w)) && Apply(p, NotifyOne(w)).notifies == p.notifies - 1
  {
    if i :| 0 <= i < |p.workers| && p.workers[i] == Sleeping {
      w := Some(i);
    } else {
      w := None;
    }
  }

  // ----- A run -----

  lemma OneBefore<T>(p: Pool<T>, a: Action<T>, next: Pool<T>, actions: seq<Action<T>>, q: Pool<T>)
    requires Enabled(p, a) && Apply(p, a) == next && Run(next, actions, q)
    ensures Run(p, [a] + actions, q)
  {
    assert ([a] + actions)[1..] == actions;
    hide Enabled, Apply;
  }

  lemma Stops<T>(task: T, late: T)
    ensures Run(Pool([], false, [Running(task)], 0, false, [task], [task]),
                [Stop, Enqueue(late), NotifyAll, Finish(0), Check(0)], Pool([], true, [Returned], 0, false, [task], [task]))
  {
    var stopping := Pool([], true, [Running(task)], 0, true, [task], [task]);
    var stopped := Pool([], true, [Running(task)], 0, false, [task], [task]);
    var awake := Pool([], true, [Awake], 0, false, [task], [task]);
    var end := Pool([], true, [Returned], 0, false, [task], [task]);
    OneBefore(awake, Check(0), end, [], end);
    OneBefore(stopped, Finish(0), awake, [Check(0)], end);
    OneBefore(stopping, NotifyAll, stopped, [Finish(0), Check(0)], end);
    OneBefore(stopping, Enqueue(late), stopping, [NotifyAll, Finish(0), Check(0)], end);
    OneBefore(Pool([], false, [Running(task)], 0, false, [task], [task]), Stop, stopping, [Enqueue(late), NotifyAll, Finish(0), Check(0)], end);
    hide Run;
    assert [Stop] + [Enqueue(late), NotifyAll, Finish(0), Check(0)] == [Stop, Enqueue(late), NotifyAll, Finish(0), Check(0)];
  }

  /** One worker finds nothing to do and sleeps; a task is put in and wakes it; the pool is stopped and
      refuses another task; the worker finishes its own and returns. */
  lemma OneWorker<T>(task: T, late: T)
    ensures Run(Start(1), [Check(0), Enqueue(task), NotifyOne(Some(0)), Check(0)] + [Stop, Enqueue(late), NotifyAll, Finish(0), Check(0)],
                Pool([], true, [Returned], 0, false, [task], [task]))
  {
    var rest: seq<Action<T>>, end := [Stop, Enqueue(late), NotifyAll, Finish(0), Check(0)], Pool([], true, [Returned], 0, false, [task], [task]);
    var running := Pool([], false, [Running(task)], 0, false, [task], [task]);
    Stops(task, late);
    hide Run;
    StartsTask(task, running);
    OneBefore(Pool([task], false, [Awake], 0, false, [task], []), Check(0), running, rest, end);
    OneBefore(Pool([task], false, [Sleeping], 1, false, [task], []), NotifyOne(Some(0)),
              Pool([task], false, [Awake], 0, false, [task], []), [Check(0)] + rest, end);
    OneBefore(Pool([], false, [Sleeping], 0, false, [], []), Enqueue(task), Pool([task], false, [Sleeping], 1, false, [task], []),
              [NotifyOne(Some(0))] + ([Check(0)] + rest), end);
    OneBefore(Start(1), Check(0), Pool([], false, [Sleeping], 0, false, [], []), [Enqueue(task)] + ([NotifyOne(Some(0))] + ([Check(0)] + rest)), end);
    assert [Check(0), Enqueue(task), NotifyOne(Some(0)), Check(0)] + rest
        == [Check(0)] + ([Enqueue(task)] + ([NotifyOne(Some(0))] + ([Check(0)] + rest)));
  }

  lemma StartsTask<T>(task: T, running: Pool<T>)
    requires running == Pool([], false, [Running(task)], 0, false, [task], [task])
    ensures var p := Pool([task], false, [Awake], 0, false, [task], []); Enabled(p, Check(0)) && Apply(p, Check(0)) == running
    ensures var p: Pool<T> := Pool([], false, [Sleeping], 0, false, [], []);
            Enabled(p, Enqueue(task)) && Apply(p, Enqueue(task)) == Pool([task], false, [Sleeping], 1, false, [task], [])
    ensures Start<T>(1) == Pool([], false, [Awake], 0, false, [], [])
  {
    assert [task][1..] == [] && [] + [task] == [task];
  }
}
