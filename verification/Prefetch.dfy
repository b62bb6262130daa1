/**
 The prefetch pipeline: CacheFrame, its task, and ReadFrame.

 Any number of media sources share one pool of workers and one event-loop thread. Each source
 starts eight tasks. A task fetches one frame under the source's mutex and queues it unless it
 is empty; ReadFrame takes a queued frame and starts the next task. The steps are the sections
 under a mutex and the calls between them; `feed(s, i)` is what the i-th call of source s's
 GetFrameFromFile returns, the calls being serialised by the mutex. A free worker takes a
 queued task at any time; that the thread pool does see to it is shown in `PrefetchOnPool`.
 */
module Prefetch {
  import opened Bytes

  type Frame = seq<byte>
  type Feed = (nat, nat) -> Frame

  /** max_frame_size_ */
  const CREDITS: nat := 8

  datatype Source = Source(
    starting: nat,           // tasks its constructor has not enqueued yet
    frames: seq<Frame>,      // frames_
    fetched: nat,            // calls of GetFrameFromFile so far
    empties: nat,            // those that returned the empty frame
    delivered: seq<Frame>)   // frames that ReadFrame has taken

  /** The event-loop thread: outside ReadFrame; about to test the wait predicate; asleep on cv_;
      or holding a frame with the next task not started yet. */
  datatype Loop = Idle | Checking(s: nat) | Blocked(s: nat) | Refilling(s: nat)

  datatype State = State(
    queue: seq<nat>,           // the pool's tasks, by source
    running: multiset<nat>,    // workers that have taken a task and not fetched yet
    notifying: multiset<nat>,  // workers between unlock and notify_all
    sources: seq<Source>,
    loop: Loop)

  datatype Action =
    | Start(s: nat)   // the constructor's CacheFrame
    | Dequeue
    | Fetch(s: nat)
    | Notify(s: nat)
    | Tick(s: nat)    // the timer of source s: handleTimeout calls ReadFrame
    | Check
    | Refill
    | WakeUnasked     // a spurious wake-up of cv_

  function Init(sources: nat): State {
    State([], multiset{}, multiset{}, seq(sources, _ => Source(CREDITS, [], 0, 0, [])), Idle)
  }

  predicate Enabled(st: State, workers: nat, a: Action) {
    match a
    case Start(s) => s < |st.sources| && 0 < st.sources[s].starting
    case Dequeue => st.queue != [] && |st.running| + |st.notifying| < workers
    case Fetch(s) => s < |st.sources| && s in st.running
    case Notify(s) => s < |st.sources| && s in st.notifying
    case Tick(s) => s < |st.sources| && st.loop.Idle? && Started(st)
    case Check => st.loop.Checking? && st.loop.s < |st.sources|
    case Refill => st.loop.Refilling?
    case WakeUnasked => st.loop.Blocked?
  }

  /** What a task does to its source with the frame it has fetched. */
  function Fetched(src: Source, frame: Frame): Source {
    if frame != [] then src.(fetched := src.fetched + 1, frames := src.frames + [frame])
    else src.(fetched := src.fetched + 1, empties := src.empties + 1)
  }

  /** ReadFrame takes the first frame. */
  function Taken(src: Source): Source
    requires src.frames != []
  {
    src.(frames := src.frames[1..], delivered := src.delivered + [src.frames[0]])
  }

  /** notify_all on the condition variable of source s. */
  function Woken(loop: Loop, s: nat): Loop {
    if loop == Blocked(s) then Checking(s) else loop
  }

  function Apply(st: State, workers: nat, feed: Feed, a: Action): (st': State)
    requires Enabled(st, workers, a)
    ensures |st'.sources| == |st.sources|
  {
    match a
    case Start(s) =>
      var src := st.sources[s];
      st.(queue := st.queue + [s], sources := st.sources[s := src.(starting := src.starting - 1)])
    case Dequeue =>
      st.(queue := st.queue[1..], running := st.running + multiset{st.queue[0]})
    case Fetch(s) =>
      st.(running := st.running - multiset{s}, notifying := st.notifying + multiset{s},
          sources := st.sources[s := Fetched(st.sources[s], feed(s, st.sources[s].fetched))])
    case Notify(s) =>
      st.(notifying := st.notifying - multiset{s}, loop := Woken(st.loop, s))
    case Tick(s) => st.(loop := Checking(s))
    case Check =>
      var s := st.loop.s;
      var src := st.sources[s];
      if src.frames == [] then st.(loop := Blocked(s)) else
        st.(sources := st.sources[s := Taken(src)], loop := Refilling(s))
    case Refill => st.(queue := st.queue + [st.loop.s], loop := Idle)
    case WakeUnasked => st.(loop := Checking(st.loop.s))
  }

  ghost predicate Run(st: State, workers: nat, feed: Feed, actions: seq<Action>, end: State)
    decreases |actions|
  {
    if actions == [] then st == end
    else Enabled(st, workers, actions[0]) && Run(Apply(st, workers, feed, actions[0]), workers, feed, actions[1..], end)
  }

  // ----- Sequential reading -----

  /** The non-empty ones among the first n results. */
  function NonEmpty(feed: Feed, s: nat, n: nat): seq<Frame> {
    if n == 0 then [] else
      NonEmpty(feed, s, n - 1) + if feed(s, n - 1) == [] then [] else [feed(s, n - 1)]
  }

  function Empties(feed: Feed, s: nat, n: nat): nat {
    if n == 0 then 0 else Empties(feed, s, n - 1) + if feed(s, n - 1) == [] then 1 else 0
  }

  /** The first n results end with the eighth empty one. */
  predicate EndsAtEighthEmpty(feed: Feed, s: nat, n: nat) {
    0 < n && feed(s, n - 1) == [] && Empties(feed, s, n) == CREDITS
  }

  lemma {:induction false} EmptiesGrow(feed: Feed, s: nat, m: nat, n: nat)
    requires m <= n
    ensures Empties(feed, s, m) <= Empties(feed, s, n)
    ensures EndsAtEighthEmpty(feed, s, n) && m < n ==> Empties(feed, s, m) < CREDITS
    decreases n
  {
    if m < n {
      EmptiesGrow(feed, s, m, n - 1);
    }
  }

  /** There is at most one place where the eighth empty result is. */
  lemma EighthEmptyIsUnique(feed: Feed, s: nat, m: nat, n: nat)
    requires EndsAtEighthEmpty(feed, s, m) && EndsAtEighthEmpty(feed, s, n)
    ensures m == n
  {
    if m < n {
      EmptiesGrow(feed, s, m, n);
    } else {
      EmptiesGrow(feed, s, n, m);
    }
  }

  // ----- What every step keeps -----

  function Credits(st: State, s: nat): nat
    requires s < |st.sources|
  {
    st.sources[s].starting + multiset(st.queue)[s] + st.running[s]
    + |st.sources[s].frames| + st.sources[s].empties + if st.loop == Refilling(s) then 1 else 0
  }

  ghost predicate SourceOk(st: State, feed: Feed, s: nat)
    requires s < |st.sources|
  {
    var src := st.sources[s];
    && Credits(st, s) == CREDITS
    && src.delivered + src.frames == NonEmpty(feed, s, src.fetched)
    && src.empties == Empties(feed, s, src.fetched)
    && (src.empties == CREDITS ==> EndsAtEighthEmpty(feed, s, src.fetched))
    && (st.loop == Blocked(s) && src.frames != [] ==> s in st.notifying)
  }

  /** Tokens belong to sources, busy workers exist, and the loop runs only after start-up. */
  ghost predicate Shape(st: State, workers: nat) {
    && (forall i :: 0 <= i < |st.queue| ==> st.queue[i] < |st.sources|)
    && (forall s :: s in st.running ==> s < |st.sources|)
    && (forall s :: s in st.notifying ==> s < |st.sources|)
    && |st.running| + |st.notifying| <= workers
    && (!st.loop.Idle? ==> st.loop.s < |st.sources| && Started(st))
  }

  predicate Started(st: State) {
    forall i :: 0 <= i < |st.sources| ==> st.sources[i].starting == 0
  }

  ghost predicate Invariant(st: State, workers: nat, feed: Feed) {
    Shape(st, workers) && forall s :: 0 <= s < |st.sources| ==> SourceOk(st, feed, s)
  }

  lemma QueuePush(queue: seq<nat>, s: nat)
    ensures multiset(queue + [s]) == multiset(queue) + multiset{s}
  {
  }

  lemma QueuePop(queue: seq<nat>)
    requires queue != []
    ensures multiset(queue) == multiset(queue[1..]) + multiset{queue[0]}
  {
    assert queue == [queue[0]] + queue[1..];
  }

  lemma FetchKeepsSource(st: State, workers: nat, feed: Feed, t: nat, s: nat)
    requires s < |st.sources| && SourceOk(st, feed, s) && Enabled(st, workers, Fetch(t))
    ensures SourceOk(Apply(st, workers, feed, Fetch(t)), feed, s)
  {
    if t == s {
      FetchesItsOwn(st, workers, feed, s);
    } else {
      hide NonEmpty, Empties, EndsAtEighthEmpty;
      assert Apply(st, workers, feed, Fetch(t)).sources[s] == st.sources[s];
    }
  }

  lemma FetchesItsOwn(st: State, workers: nat, feed: Feed, s: nat)
    requires s < |st.sources| && SourceOk(st, feed, s) && Enabled(st, workers, Fetch(s))
    ensures SourceOk(Apply(st, workers, feed, Fetch(s)), feed, s)
  {
    var src := st.sources[s];
    var frame := feed(s, src.fetched);
    OneMoreResult(feed, s, src.fetched);
    assert EndsAtEighthEmpty(feed, s, src.fetched + 1) <==> frame == [] && Empties(feed, s, src.fetched + 1) == CREDITS;
    hide NonEmpty, Empties, EndsAtEighthEmpty;
    assert src.delivered + (src.frames + [frame]) == src.delivered + src.frames + [frame];
    assert src.delivered + src.frames + [] == src.delivered + src.frames;
    assert src.empties < CREDITS;
  }

  lemma OneMoreResult(feed: Feed, s: nat, n: nat)
    ensures NonEmpty(feed, s, n + 1) == NonEmpty(feed, s, n) + if feed(s, n) == [] then [] else [feed(s, n)]
    ensures Empties(feed, s, n + 1) == Empties(feed, s, n) + if feed(s, n) == [] then 1 else 0
  {
  }

  lemma CheckKeepsSource(st: State, workers: nat, feed: Feed, s: nat)
    requires s < |st.sources| && SourceOk(st, feed, s) && Enabled(st, workers, Check)
    ensures SourceOk(Apply(st, workers, feed, Check), feed, s)
  {
    if st.loop.s == s && st.sources[s].frames != [] {
      var src := st.sources[s];
      assert src.delivered + [src.frames[0]] + src.frames[1..] == src.delivered + src.frames;
    }
  }

  lemma StepKeepsSource(st: State, workers: nat, feed: Feed, a: Action, s: nat)
    requires s < |st.sources| && SourceOk(st, feed, s) && Enabled(st, workers, a)
    ensures SourceOk(Apply(st, workers, feed, a), feed, s)
  {
    hide NonEmpty, Empties, EndsAtEighthEmpty;
    match a
    case Fetch(t) => FetchKeepsSource(st, workers, feed, t, s);
    case Check => CheckKeepsSource(st, workers, feed, s);
    case Notify(_) =>
    case Tick(_) =>
    case WakeUnasked =>
    case _ => TokensKeepSource(st, workers, feed, a, s);
  }

  lemma TokensKeepSource(st: State, workers: nat, feed: Feed, a: Action, s: nat)
    requires s < |st.sources| && SourceOk(st, feed, s) && Enabled(st, workers, a)
    requires a.Start? || a.Dequeue? || a.Refill?
    ensures SourceOk(Apply(st, workers, feed, a), feed, s)
  {
    hide NonEmpty, Empties, EndsAtEighthEmpty;
    match a
    case Start(t) => QueuePush(st.queue, t);
    case Dequeue => QueuePop(st.queue);
    case Refill => QueuePush(st.queue, st.loop.s);
  }

  lemma TokensKeepShape(st: State, workers: nat, feed: Feed, a: Action)
    requires Shape(st, workers) && Enabled(st, workers, a)
    requires a.Start? || a.Dequeue? || a.Refill?
    ensures Shape(Apply(st, workers, feed, a), workers)
  {
  }

  lemma SourcesKeepShape(st: State, workers: nat, feed: Feed, a: Action)
    requires Shape(st, workers) && Enabled(st, workers, a)
    requires !(a.Start? || a.Dequeue? || a.Refill?)
    ensures Shape(Apply(st, workers, feed, a), workers)
  {
    match a
    case Fetch(s) => FetchKeepsShape(st, workers, feed, s);
    case Notify(s) => NotifyKeepsShape(st, workers, feed, s);
    case _ =>
  }

  lemma FetchKeepsShape(st: State, workers: nat, feed: Feed, s: nat)
    requires Shape(st, workers) && Enabled(st, workers, Fetch(s))
    ensures Shape(Apply(st, workers, feed, Fetch(s)), workers)
  {
    var next := Apply(st, workers, feed, Fetch(s));
    assert next.running <= st.running && |next.running| + |next.notifying| == |st.running| + |st.notifying|;
  }

  lemma NotifyKeepsShape(st: State, workers: nat, feed: Feed, s: nat)
    requires Shape(st, workers) && Enabled(st, workers, Notify(s))
    ensures Shape(Apply(st, workers, feed, Notify(s)), workers)
  {
    assert Apply(st, workers, feed, Notify(s)).notifying <= st.notifying;
  }

  lemma StepKeepsInvariant(st: State, workers: nat, feed: Feed, a: Action)
    requires Invariant(st, workers, feed) && Enabled(st, workers, a)
    ensures Invariant(Apply(st, workers, feed, a), workers, feed)
  {
    hide SourceOk, Shape, Enabled;
    if a.Start? || a.Dequeue? || a.Refill? {
      TokensKeepShape(st, workers, feed, a);
    } else {
      SourcesKeepShape(st, workers, feed, a);
    }
    forall s | 0 <= s < |st.sources| ensures SourceOk(Apply(st, workers, feed, a), feed, s) {
      StepKeepsSource(st, workers, feed, a, s);
    }
  }

  lemma InitInvariant(sources: nat, workers: nat, feed: Feed)
    ensures Invariant(Init(sources), workers, feed)
  {
    forall s | 0 <= s < sources ensures SourceOk(Init(sources), feed, s) {
    }
  }

  lemma StepDelivers(st: State, workers: nat, feed: Feed, a: Action, s: nat)
    requires s < |st.sources| && Enabled(st, workers, a)
    ensures st.sources[s].delivered <= Apply(st, workers, feed, a).sources[s].delivered
  {
  }

  lemma {:induction false} RunKeepsInvariant(st: State, workers: nat, feed: Feed, actions: seq<Action>, end: State)
    requires Invariant(st, workers, feed) && Run(st, workers, feed, actions, end)
    ensures Invariant(end, workers, feed) && |end.sources| == |st.sources|
    ensures forall s :: 0 <= s < |st.sources| ==> st.sources[s].delivered <= end.sources[s].delivered
    decreases |actions|
  {
    if actions != [] {
      hide SourceOk, Shape, Enabled, Apply;
      var next := Apply(st, workers, feed, actions[0]);
      StepKeepsInvariant(st, workers, feed, actions[0]);
      RunKeepsInvariant(next, workers, feed, actions[1..], end);
      forall s | 0 <= s < |st.sources| ensures st.sources[s].delivered <= end.sources[s].delivered {
        StepDelivers(st, workers, feed, actions[0], s);
        assert next.sources[s].delivered <= end.sources[s].delivered;
      }
    }
  }

  // ----- The promises -----

  /** Under every interleaving, the frames delivered and the frames queued are together the
      non-empty results fetched so far, in file order, and the eight credits of the source are
      all accounted for. */
  lemma PrefetchRefinesReading(sources: nat, workers: nat, feed: Feed, actions: seq<Action>, st: State, s: nat)
    requires Run(Init(sources), workers, feed, actions, st) && s < sources
    ensures |st.sources| == sources
    ensures st.sources[s].delivered + st.sources[s].frames == NonEmpty(feed, s, st.sources[s].fetched)
    ensures Credits(st, s) == 8 && st.sources[s].empties == Empties(feed, s, st.sources[s].fetched)
    ensures |st.sources[s].frames| <= 8
  {
    InitInvariant(sources, workers, feed);
    RunKeepsInvariant(Init(sources), workers, feed, actions, st);
    assert SourceOk(st, feed, s);
  }

  lemma {:induction false} ResultsAreCounted(feed: Feed, s: nat, n: nat)
    ensures |NonEmpty(feed, s, n)| + Empties(feed, s, n) == n
    decreases n
  {
    if n > 0 {
      ResultsAreCounted(feed, s, n - 1);
    }
  }

  /** Nobody has read from source s. */
  ghost predicate Unread(st: State, s: nat)
    requires s < |st.sources|
  {
    st.sources[s].delivered == [] && (st.loop.Idle? || st.loop.s != s)
  }

  lemma {:induction false} StaysUnread(st: State, workers: nat, feed: Feed, actions: seq<Action>, end: State, s: nat)
    requires Run(st, workers, feed, actions, end) && s < |st.sources| && Unread(st, s) && Tick(s) !in actions
    ensures |end.sources| == |st.sources| && Unread(end, s)
    decreases |actions|
  {
    if actions != [] {
      assert actions[0] != Tick(s) && Tick(s) !in actions[1..];
      StepStaysUnread(st, workers, feed, actions[0], s);
      hide Enabled, Apply, Unread;
      StaysUnread(Apply(st, workers, feed, actions[0]), workers, feed, actions[1..], end, s);
    }
  }

  lemma StepStaysUnread(st: State, workers: nat, feed: Feed, a: Action, s: nat)
    requires Enabled(st, workers, a) && s < |st.sources| && Unread(st, s) && a != Tick(s)
    ensures Unread(Apply(st, workers, feed, a), s)
  {
  }

  /** A source that is never read from fetches eight results ahead and no more: at most eight at
      every moment, and eight when nothing but reading can happen. */
  lemma UnreadSourceFetchesEight(sources: nat, workers: nat, feed: Feed, actions: seq<Action>, st: State, s: nat)
    requires Run(Init(sources), workers, feed, actions, st) && s < sources && Tick(s) !in actions
    ensures |st.sources| == sources && st.sources[s].delivered == []
    ensures st.sources[s].fetched <= 8
    ensures 0 < workers && (forall a: Action :: Enabled(st, workers, a) ==> a.Tick? || a.WakeUnasked?) ==> st.sources[s].fetched == 8
  {
    StaysUnread(Init(sources), workers, feed, actions, st, s);
    InitInvariant(sources, workers, feed);
    RunKeepsInvariant(Init(sources), workers, feed, actions, st);
    assert SourceOk(st, feed, s);
    ResultsAreCounted(feed, s, st.sources[s].fetched);
    if 0 < workers && forall a: Action :: Enabled(st, workers, a) ==> a.Tick? || a.WakeUnasked? {
      QuietWorkers(st, workers);
      assert !Enabled(st, workers, Start(s));
    }
    hide Run, Enabled;
  }

  lemma QuietWorkers(st: State, workers: nat)
    requires Shape(st, workers) && 0 < workers && forall a: Action :: Enabled(st, workers, a) ==> a.Tick? || a.WakeUnasked?
    ensures st.running == multiset{} && st.notifying == multiset{} && st.queue == []
  {
    forall t: nat ensures t !in st.notifying && t !in st.running {
      assert !Enabled(st, workers, Notify(t)) && !Enabled(st, workers, Fetch(t));
    }
    assert st.notifying == multiset{} && st.running == multiset{};
    assert !Enabled(st, workers, Dequeue);
  }

  /** The thread is inside ReadFrame of source s and has not got its frame yet. */
  ghost predicate Waits(st: State, s: nat) {
    st.loop == Checking(s) || st.loop == Blocked(s)
  }

  /** Nothing can happen any more, except that the thread wakes without having been notified. */
  ghost predicate Stuck(st: State, workers: nat) {
    forall a: Action :: Enabled(st, workers, a) ==> a.WakeUnasked?
  }

  /** An upper bound for the steps that can happen while the thread waits, unasked wake-ups and
      the tests that follow them aside. */
  function Wait(st: State): nat {
    4 * |st.queue| + 3 * |st.running| + 2 * |st.notifying| + if st.loop.Checking? then 1 else 0
  }

  function UnaskedWakeUps(actions: seq<Action>): nat {
    if actions == [] then 0 else (if actions[0].WakeUnasked? then 1 else 0) + UnaskedWakeUps(actions[1..])
  }

  lemma WaitingStep(st: State, workers: nat, feed: Feed, a: Action, s: nat)
    requires Shape(st, workers) && s < |st.sources| && Waits(st, s) && Enabled(st, workers, a)
    ensures var next := Apply(st, workers, feed, a);
            if a.Check? && st.sources[s].frames != [] then |next.sources[s].delivered| == |st.sources[s].delivered| + 1
            else && Waits(next, s) && next.sources[s].delivered == st.sources[s].delivered
                 && if a.WakeUnasked? then Wait(next) == Wait(st) + 1 else Wait(next) < Wait(st)
  {
  }

  /** A waiting thread is stuck only if its source has returned eight empty frames. */
  lemma StuckMeansEightEmpties(st: State, workers: nat, feed: Feed, s: nat)
    requires Invariant(st, workers, feed) && s < |st.sources| && Waits(st, s)
    requires 0 < workers && Stuck(st, workers)
    ensures st.loop == Blocked(s) && st.sources[s].frames == []
    ensures EndsAtEighthEmpty(feed, s, st.sources[s].fetched)
    ensures st.sources[s].delivered == NonEmpty(feed, s, st.sources[s].fetched)
  {
    QuietWorkers(st, workers);
    assert SourceOk(st, feed, s) && !Enabled(st, workers, Check);
    hide Stuck, NonEmpty, Empties, EndsAtEighthEmpty;
    assert st.sources[s].delivered + [] == st.sources[s].delivered;
  }

  /** While ReadFrame waits only boundedly many steps can happen, unasked wake-ups aside, and the
      only way to run out of steps before it has its frame is that the source has had eight empty
      results. */
  lemma {:induction false} ReadFrameReturns(st: State, workers: nat, feed: Feed, actions: seq<Action>, end: State, s: nat)
    requires Invariant(st, workers, feed) && s < |st.sources| && Waits(st, s)
    requires 0 < workers && Run(st, workers, feed, actions, end)
    ensures |end.sources| == |st.sources|
    ensures end.sources[s].delivered == st.sources[s].delivered ==>
              Waits(end, s) && |actions| + Wait(end) <= Wait(st) + 2 * UnaskedWakeUps(actions)
    ensures end.sources[s].delivered == st.sources[s].delivered && Stuck(end, workers) ==>
              EndsAtEighthEmpty(feed, s, end.sources[s].fetched)
    decreases |actions|
  {
    RunKeepsInvariant(st, workers, feed, actions, end);
    hide SourceOk, Shape, Enabled, Apply, Stuck;
    if actions == [] {
      if Stuck(end, workers) {
        StuckMeansEightEmpties(end, workers, feed, s);
      }
    } else {
      var next := Apply(st, workers, feed, actions[0]);
      StepKeepsInvariant(st, workers, feed, actions[0]);
      WaitingStep(st, workers, feed, actions[0], s);
      StepDelivers(st, workers, feed, actions[0], s);
      RunKeepsInvariant(next, workers, feed, actions[1..], end);
      if Waits(next, s) && next.sources[s].delivered == st.sources[s].delivered {
        ReadFrameReturns(next, workers, feed, actions[1..], end, s);
      }
    }
  }

  // ----- When ReadFrame never comes back -----

  /** These frames are all that the source has before its eighth empty result. */
  ghost predicate Exhausted(feed: Feed, s: nat, delivered: seq<Frame>) {
    exists n :: EndsAtEighthEmpty(feed, s, n) && NonEmpty(feed, s, n) == delivered
  }

  lemma {:induction false} NonEmptyGrows(feed: Feed, s: nat, m: nat, n: nat)
    requires m <= n
    ensures NonEmpty(feed, s, m) <= NonEmpty(feed, s, n)
    decreases n
  {
    if m < n {
      NonEmptyGrows(feed, s, m, n - 1);
    }
  }

  /** When everything before the eighth empty result has been delivered, nothing is queued. */
  lemma ExhaustedIsEmpty(st: State, workers: nat, feed: Feed, s: nat)
    requires Invariant(st, workers, feed) && s < |st.sources| && Exhausted(feed, s, st.sources[s].delivered)
    ensures st.sources[s].frames == []
  {
    var src := st.sources[s];
    assert SourceOk(st, feed, s);
    var n :| EndsAtEighthEmpty(feed, s, n) && NonEmpty(feed, s, n) == src.delivered;
    if src.fetched <= n {
      NonEmptyGrows(feed, s, src.fetched, n);
    } else {
      EmptiesGrow(feed, s, n, src.fetched);
    }
  }

  /** Then every continuation leaves the thread where it is. */
  lemma {:induction false} ExhaustedWaits(st: State, workers: nat, feed: Feed, actions: seq<Action>, end: State, s: nat)
    requires Invariant(st, workers, feed) && s < |st.sources| && Waits(st, s)
    requires Exhausted(feed, s, st.sources[s].delivered) && Run(st, workers, feed, actions, end)
    ensures |end.sources| == |st.sources| && Waits(end, s) && end.sources[s].delivered == st.sources[s].delivered
    decreases |actions|
  {
    hide SourceOk, Shape, Enabled, Apply, Exhausted, NonEmpty;
    if actions != [] {
      ExhaustedIsEmpty(st, workers, feed, s);
      WaitingStep(st, workers, feed, actions[0], s);
      StepKeepsInvariant(st, workers, feed, actions[0]);
      ExhaustedWaits(Apply(st, workers, feed, actions[0]), workers, feed, actions[1..], end, s);
    }
  }

  lemma {:induction false} RunAppend(st: State, workers: nat, feed: Feed, first: seq<Action>, mid: State, rest: seq<Action>, end: State)
    requires Run(st, workers, feed, first, mid) && Run(mid, workers, feed, rest, end)
    ensures Run(st, workers, feed, first + rest, end)
    decreases |first|
  {
    hide Enabled, Apply;
    if first == [] {
      assert first + rest == rest;
    } else {
      assert (first + rest)[1..] == first[1..] + rest;
      RunAppend(Apply(st, workers, feed, first[0]), workers, feed, first[1..], mid, rest, end);
    }
  }

  /** A waiting thread can be run until it has its frame or is stuck. */
  lemma {:induction false} GoOn(st: State, workers: nat, feed: Feed, s: nat) returns (actions: seq<Action>, end: State)
    requires Invariant(st, workers, feed) && s < |st.sources| && Waits(st, s)
    ensures Run(st, workers, feed, actions, end) && |end.sources| == |st.sources| && Invariant(end, workers, feed)
    ensures if end.sources[s].delivered == st.sources[s].delivered then Waits(end, s) && Stuck(end, workers)
            else end.loop == Refilling(s) && |end.sources[s].delivered| == |st.sources[s].delivered| + 1
    decreases Wait(st)
  {
    if Stuck(st, workers) {
      actions, end := [], st;
    } else {
      var a: Action :| Enabled(st, workers, a) && !a.WakeUnasked?;
      assert a.Check? && st.sources[s].frames != [] ==> Apply(st, workers, feed, a).loop == Refilling(s);
      hide SourceOk, Shape, Enabled, Apply, Stuck;
      var next := Apply(st, workers, feed, a);
      StepKeepsInvariant(st, workers, feed, a);
      WaitingStep(st, workers, feed, a, s);
      assert Run(next, workers, feed, [], next);
      if a.Check? && st.sources[s].frames != [] {
        actions, end := [a], next;
        assert [a][1..] == [];
      } else {
        var rest;
        rest, end := GoOn(next, workers, feed, s);
        actions := [a] + rest;
        assert actions[1..] == rest;
      }
    }
  }

  /** Some continuation delivers a frame to the thread. */
  ghost predicate CanReturn(st: State, workers: nat, feed: Feed, s: nat)
    requires s < |st.sources|
  {
    exists actions, end ::
      Run(st, workers, feed, actions, end) && |end.sources| == |st.sources| && end.sources[s].delivered != st.sources[s].delivered
  }

  /** A waiting ReadFrame can still get a frame if and only if its source has more to deliver before
      its eighth empty result. */
  lemma ReadFrameCanReturnIff(st: State, workers: nat, feed: Feed, s: nat)
    requires Invariant(st, workers, feed) && s < |st.sources| && Waits(st, s) && 0 < workers
    ensures CanReturn(st, workers, feed, s) <==> !Exhausted(feed, s, st.sources[s].delivered)
  {
    hide Invariant, Stuck, EndsAtEighthEmpty, NonEmpty;
    if CanReturn(st, workers, feed, s) {
      var actions, end :|
        Run(st, workers, feed, actions, end) && |end.sources| == |st.sources| && end.sources[s].delivered != st.sources[s].delivered;
      hide Run, Exhausted;
      if Exhausted(feed, s, st.sources[s].delivered) {
        ExhaustedWaits(st, workers, feed, actions, end, s);
      }
    } else {
      var actions, end := GoOn(st, workers, feed, s);
      StuckMeansEightEmpties(end, workers, feed, s);
    }
  }

  // ----- Runs that end -----

  /** A run that can go no further has the event loop blocked in ReadFrame of some source that
      has delivered exactly the non-empty results before its eighth empty one. */
  lemma MaximalRun(sources: nat, workers: nat, feed: Feed, actions: seq<Action>, end: State) returns (s: nat)
    requires Run(Init(sources), workers, feed, actions, end)
    requires 0 < sources && 0 < workers && Stuck(end, workers)
    ensures s < sources && |end.sources| == sources && end.loop == Blocked(s)
    ensures EndsAtEighthEmpty(feed, s, end.sources[s].fetched)
    ensures end.sources[s].delivered == NonEmpty(feed, s, end.sources[s].fetched)
  {
    InitInvariant(sources, workers, feed);
    RunKeepsInvariant(Init(sources), workers, feed, actions, end);
    if exists t :: 0 <= t < sources && 0 < end.sources[t].starting {
      var t :| 0 <= t < sources && 0 < end.sources[t].starting;
      assert Enabled(end, workers, Start(t));
    }
    assert !Enabled(end, workers, Tick(0));
    assert !Enabled(end, workers, Refill);
    s := end.loop.s;
    StuckMeansEightEmpties(end, workers, feed, s);
  }

  /** One source's constructor hands in its tasks. */
  lemma {:induction false} StartSource(st: State, workers: nat, feed: Feed, s: nat) returns (actions: seq<Action>, end: State)
    requires Invariant(st, workers, feed) && s < |st.sources|
    ensures Run(st, workers, feed, actions, end) && Invariant(end, workers, feed) && |end.sources| == |st.sources|
    ensures end.loop == st.loop && end.sources[s].starting == 0
    ensures forall t :: 0 <= t < |st.sources| && t != s ==> end.sources[t] == st.sources[t]
    decreases st.sources[s].starting
  {
    if st.sources[s].starting == 0 {
      actions, end := [], st;
    } else {
      var next := Apply(st, workers, feed, Start(s));
      StepKeepsInvariant(st, workers, feed, Start(s));
      hide Invariant;
      var rest;
      rest, end := StartSource(next, workers, feed, s);
      actions := [Start(s)] + rest;
      assert actions[1..] == rest;
    }
  }

  /** All constructors are done. */
  lemma {:induction false} StartAll(st: State, workers: nat, feed: Feed, n: nat) returns (actions: seq<Action>, end: State)
    requires Invariant(st, workers, feed) && n <= |st.sources| && st.loop == Idle
    requires forall t :: n <= t < |st.sources| ==> st.sources[t].starting == 0
    ensures Run(st, workers, feed, actions, end) && Invariant(end, workers, feed) && |end.sources| == |st.sources|
    ensures end.loop == Idle && Started(end)
    decreases n
  {
    if n == 0 {
      actions, end := [], st;
    } else {
      var first, mid := StartSource(st, workers, feed, n - 1);
      hide Invariant, Apply, Enabled;
      var rest;
      rest, end := StartAll(mid, workers, feed, n - 1);
      RunAppend(st, workers, feed, first, mid, rest, end);
      actions := first + rest;
    }
  }

  /** Ticking one source again and again, until all it has to deliver has been delivered. */
  lemma {:induction false} TickUntilDelivered(st: State, workers: nat, feed: Feed, s: nat, n: nat) returns (actions: seq<Action>, end: State)
    requires Invariant(st, workers, feed) && s < |st.sources| && 0 < workers && st.loop == Idle && Started(st)
    requires EndsAtEighthEmpty(feed, s, n) && |st.sources[s].delivered| <= |NonEmpty(feed, s, n)|
    ensures Run(st, workers, feed, actions, end) && |end.sources| == |st.sources|
    ensures Invariant(end, workers, feed) && end.loop == Idle && Started(end)
    ensures |end.sources[s].delivered| == |NonEmpty(feed, s, n)|
    decreases |NonEmpty(feed, s, n)| - |st.sources[s].delivered|
  {
    if |st.sources[s].delivered| == |NonEmpty(feed, s, n)| {
      actions, end := [], st;
    } else {
      var first, mid := TickOnce(st, workers, feed, s, n);
      hide Invariant, Enabled, Apply, NonEmpty, EndsAtEighthEmpty, Started;
      var rest;
      rest, end := TickUntilDelivered(mid, workers, feed, s, n);
      RunAppend(st, workers, feed, first, mid, rest, end);
      actions := first + rest;
    }
  }

  /** Then the next tick leaves the event loop stuck in it. */
  lemma TickUntilStuck(st: State, workers: nat, feed: Feed, s: nat, n: nat) returns (actions: seq<Action>, end: State)
    requires Invariant(st, workers, feed) && s < |st.sources| && 0 < workers && st.loop == Idle && Started(st)
    requires EndsAtEighthEmpty(feed, s, n) && |st.sources[s].delivered| <= |NonEmpty(feed, s, n)|
    ensures Run(st, workers, feed, actions, end) && |end.sources| == |st.sources|
    ensures Stuck(end, workers) && end.loop == Blocked(s)
  {
    var first, mid := TickUntilDelivered(st, workers, feed, s, n);
    var ticked := AfterTick(mid, workers, feed, s);
    hide Invariant, Enabled, Apply, NonEmpty, EndsAtEighthEmpty, Stuck;
    var rest;
    rest, end := GoOn(ticked, workers, feed, s);
    RunAppend(st, workers, feed, first, mid, [Tick(s)], ticked);
    RunAppend(st, workers, feed, first + [Tick(s)], ticked, rest, end);
    actions := first + [Tick(s)] + rest;
    DeliversAtMost(end, workers, feed, s, n);
    StuckMeansEightEmpties(end, workers, feed, s);
  }

  /** A timer event that gets its frame. */
  lemma TickOnce(st: State, workers: nat, feed: Feed, s: nat, n: nat) returns (actions: seq<Action>, end: State)
    requires Invariant(st, workers, feed) && s < |st.sources| && 0 < workers && st.loop == Idle && Started(st)
    requires EndsAtEighthEmpty(feed, s, n) && |st.sources[s].delivered| < |NonEmpty(feed, s, n)|
    ensures Run(st, workers, feed, actions, end) && |end.sources| == |st.sources|
    ensures Invariant(end, workers, feed) && end.loop == Idle && Started(end)
    ensures |st.sources[s].delivered| < |end.sources[s].delivered| <= |NonEmpty(feed, s, n)|
  {
    var ticked := AfterTick(st, workers, feed, s);
    hide Invariant, Enabled, Apply, NonEmpty, EndsAtEighthEmpty;
    var first, mid := GoOn(ticked, workers, feed, s);
    RunAppend(st, workers, feed, [Tick(s)], ticked, first, mid);
    if mid.sources[s].delivered == st.sources[s].delivered {
      StuckMeansEightEmpties(mid, workers, feed, s);
      EighthEmptyIsUnique(feed, s, mid.sources[s].fetched, n);
      assert false;
    }
    DeliversAtMost(mid, workers, feed, s, n);
    end := AfterRefill(mid, workers, feed, s);
    RunAppend(st, workers, feed, [Tick(s)] + first, mid, [Refill], end);
    actions := [Tick(s)] + first + [Refill];
  }

  lemma AfterTick(st: State, workers: nat, feed: Feed, s: nat) returns (ticked: State)
    requires Invariant(st, workers, feed) && s < |st.sources| && st.loop == Idle && Started(st)
    ensures Run(st, workers, feed, [Tick(s)], ticked) && Invariant(ticked, workers, feed)
    ensures Waits(ticked, s) && ticked.sources == st.sources
  {
    ticked := Apply(st, workers, feed, Tick(s));
    StepKeepsInvariant(st, workers, feed, Tick(s));
    assert [Tick(s)][1..] == [] && Run(ticked, workers, feed, [], ticked);
  }

  lemma DeliversAtMost(st: State, workers: nat, feed: Feed, s: nat, n: nat)
    requires Invariant(st, workers, feed) && s < |st.sources| && EndsAtEighthEmpty(feed, s, n)
    ensures |st.sources[s].delivered| <= |NonEmpty(feed, s, n)|
  {
    var src := st.sources[s];
    assert SourceOk(st, feed, s);
    if src.fetched <= n {
      NonEmptyGrows(feed, s, src.fetched, n);
    } else {
      EmptiesGrow(feed, s, n, src.fetched);
    }
  }

  lemma AfterRefill(st: State, workers: nat, feed: Feed, s: nat) returns (next: State)
    requires Invariant(st, workers, feed) && s < |st.sources| && st.loop == Refilling(s)
    ensures Run(st, workers, feed, [Refill], next) && Invariant(next, workers, feed)
    ensures next.loop == Idle && Started(next) && next.sources == st.sources
  {
    next := Apply(st, workers, feed, Refill);
    StepKeepsInvariant(st, workers, feed, Refill);
    assert [Refill][1..] == [] && Run(next, workers, feed, [], next);
  }

  /** Such runs exist: whatever the other sources hold, the event loop can get stuck in every source
      that has an eighth empty result. */
  lemma SourceCanBlock(sources: nat, workers: nat, feed: Feed, s: nat, n: nat) returns (actions: seq<Action>, end: State)
    requires s < sources && 0 < workers && EndsAtEighthEmpty(feed, s, n)
    ensures Run(Init(sources), workers, feed, actions, end) && |end.sources| == sources
    ensures Stuck(end, workers) && end.loop == Blocked(s)
  {
    InitInvariant(sources, workers, feed);
    var first, mid := StartAll(Init(sources), workers, feed, sources);
    DeliversAtMost(mid, workers, feed, s, n);
    hide Invariant, Run, EndsAtEighthEmpty, NonEmpty, Stuck, Started;
    var rest;
    rest, end := TickUntilStuck(mid, workers, feed, s, n);
    RunAppend(Init(sources), workers, feed, first, mid, rest, end);
    actions := first + rest;
  }

  /** For instance with an empty file, one source and one worker. */
  lemma EmptyFileBlocks() returns (actions: seq<Action>, end: State)
    ensures Run(Init(1), 1, (_, _) => [], actions, end) && Stuck(end, 1) && end.loop == Blocked(0)
  {
    var feed: Feed := (_, _) => [];
    AllEmpty(feed, 8);
    actions, end := SourceCanBlock(1, 1, feed, 0, 8);
  }

  lemma {:induction false} AllEmpty(feed: Feed, n: nat)
    requires forall i: nat :: feed(0, i) == []
    ensures Empties(feed, 0, n) == n
  {
    if n > 0 {
      AllEmpty(feed, n - 1);
    }
  }

  /** And two sources can both deliver everything before the event loop is stuck. */
  lemma BothCanBeDelivered(workers: nat, feed: Feed, n0: nat, n1: nat) returns (actions: seq<Action>, end: State)
    requires 0 < workers && EndsAtEighthEmpty(feed, 0, n0) && EndsAtEighthEmpty(feed, 1, n1)
    ensures Run(Init(2), workers, feed, actions, end) && |end.sources| == 2
    ensures Stuck(end, workers) && end.loop == Blocked(1)
    ensures end.sources[0].delivered == NonEmpty(feed, 0, n0) && end.sources[1].delivered == NonEmpty(feed, 1, n1)
  {
    InitInvariant(2, workers, feed);
    var first, started := StartAll(Init(2), workers, feed, 2);
    DeliversAtMost(started, workers, feed, 0, n0);
    hide Invariant, Run, EndsAtEighthEmpty, NonEmpty, Stuck, Started, SourceOk;
    var second, mid := TickUntilDelivered(started, workers, feed, 0, n0);
    RunAppend(Init(2), workers, feed, first, started, second, mid);
    DeliversAtMost(mid, workers, feed, 1, n1);
    var third;
    third, end := TickUntilStuck(mid, workers, feed, 1, n1);
    RunAppend(Init(2), workers, feed, first + second, mid, third, end);
    actions := first + second + third;
    RunKeepsInvariant(mid, workers, feed, third, end);
    StuckMeansEightEmpties(end, workers, feed, 1);
    EighthEmptyIsUnique(feed, 1, end.sources[1].fetched, n1);
    DeliveredAll(end, workers, feed, 0, n0);
  }

  lemma DeliveredAll(st: State, workers: nat, feed: Feed, s: nat, n: nat)
    requires Invariant(st, workers, feed) && s < |st.sources| && EndsAtEighthEmpty(feed, s, n)
    requires |NonEmpty(feed, s, n)| <= |st.sources[s].delivered|
    ensures st.sources[s].delivered == NonEmpty(feed, s, n)
  {
    var src := st.sources[s];
    assert SourceOk(st, feed, s);
    if src.fetched <= n {
      NonEmptyGrows(feed, s, src.fetched, n);
    } else {
      EmptiesGrow(feed, s, n, src.fetched);
    }
  }
}
