/**
 The event loop with deferred close: Scheduler::loop, EpollPoller::Poll, and the parts of
 RtspServer and RtspConnection that register and unregister descriptors.

 The kernel is an oracle: each round it hands over a batch of distinct registered descriptors,
 each with what its handler will find (a fresh descriptor from accept, a request, the end of
 the connection, a timeout). Lookups that the code takes for granted are `None` when they fail.
 */
module EventLoop {
  import opened Bytes

  datatype Outcome =
    | Accepted(newFd: int)  // listener: accept returns newFd
    | Request               // connection: any request that keeps it open
    | Gone                  // connection: recv fails or returns 0, or TEARDOWN
    | Timeout               // timer

  datatype Ready = Ready(fd: int, what: Outcome)

  datatype Loop = Loop(
    listener: int,
    conns: set<int>,      // keys of fd2conn_
    events: set<int>,     // keys of fd2event_
    timers: set<int>,     // keys of fd2timer_
    pending: seq<int>,    // disconnect_list_
    triggers: nat)        // trigger_events_: how many times the close trigger is queued

  function Start(listener: int, timers: set<int>): Loop {
    Loop(listener, {}, {listener}, timers, [], 0)
  }

  // ----- The handlers -----

  function HandleRead(s: Loop, newFd: int): Loop {
    s.(conns := s.conns + {newFd}, events := s.events + {newFd})
  }

  /** Queues the descriptor, and the trigger if the list was empty. */
  function HandleDisconnect(s: Loop, fd: int): Loop {
    s.(pending := s.pending + [fd], triggers := if |s.pending + [fd]| == 1 then s.triggers + 1 else s.triggers)
  }

  /** assert(fd2conn_.count(fd) == 1), then erase; the connection's destructor removes its event. */
  function CloseEach(s: Loop, fds: seq<int>): (r: Option<Loop>)
    ensures r.Some? ==> r.value.triggers == s.triggers
    decreases |fds|
  {
    if fds == [] then Some(s)
    else if fds[0] !in s.conns then None
    else CloseEach(s.(conns := s.conns - {fds[0]}, events := s.events - {fds[0]}), fds[1..])
  }

  function HandleClose(s: Loop): (r: Option<Loop>)
    ensures r.Some? ==> r.value.triggers == s.triggers
  {
    match CloseEach(s, s.pending)
    case None => None
    case Some(closed) => Some(closed.(pending := []))
  }

  function HandleTriggers(s: Loop): Option<Loop>
    decreases s.triggers
  {
    if s.triggers == 0 then Some(s) else
      match HandleClose(s.(triggers := s.triggers - 1))
      case None => None
      case Some(closed) => HandleTriggers(closed)
  }

  /** One turn of the dispatch loop of Poll. */
  function Dispatch(s: Loop, r: Ready): Option<Loop> {
    if r.fd in s.events then
      match r.what
      case Accepted(newFd) => Some(HandleRead(s, newFd))
      case Gone => Some(HandleDisconnect(s, r.fd))
      case _ => Some(s)
    else if r.fd in s.timers then Some(s)
    else None
  }

  function Poll(s: Loop, batch: seq<Ready>): Option<Loop>
    decreases |batch|
  {
    if batch == [] then Some(s) else
      match Poll(s, batch[..|batch| - 1])
      case None => None
      case Some(mid) => Dispatch(mid, batch[|batch| - 1])
  }

  /** One turn of Scheduler::loop. */
  function Round(s: Loop, batch: seq<Ready>): Option<Loop> {
    match HandleTriggers(s)
    case None => None
    case Some(mid) => Poll(mid, batch)
  }

  // ----- The oracle -----

  /** What epoll_wait and the handlers' system calls can come up with in this state. */
  ghost predicate Possible(s: Loop, batch: seq<Ready>) {
    && (forall i, j :: 0 <= i < j < |batch| ==> batch[i].fd != batch[j].fd)
    && forall i :: 0 <= i < |batch| ==> PossibleReady(s, batch[i])
  }

  predicate PossibleReady(s: Loop, r: Ready) {
    if r.fd == s.listener then r.what.Accepted? && r.what.newFd !in s.events + s.timers
    else if r.fd in s.events then r.what.Request? || r.what.Gone?
    else r.fd in s.timers && r.what.Timeout?
  }

  /** The state after some rounds; None if a lookup fails on the way. */
  function AfterRounds(s: Loop, rounds: seq<seq<Ready>>): Option<Loop>
    decreases |rounds|
  {
    if rounds == [] then Some(s) else
      match AfterRounds(s, rounds[..|rounds| - 1])
      case None => None
      case Some(mid) => Round(mid, rounds[|rounds| - 1])
  }

  /** Every batch is possible in the state in which the kernel hands it over. */
  ghost predicate PossibleRounds(s: Loop, rounds: seq<seq<Ready>>)
    decreases |rounds|
  {
    rounds != [] ==>
      var init, batch := rounds[..|rounds| - 1], rounds[|rounds| - 1];
      && PossibleRounds(s, init)
      && forall mid :: AfterRounds(s, init) == Some(mid) && HandleTriggers(mid).Some? ==> Possible(HandleTriggers(mid).value, batch)
  }

  // ----- What holds in every reachable state -----

  ghost predicate Invariant(s: Loop) {
    && s.events == {s.listener} + s.conns
    && s.listener !in s.conns
    && s.timers !! s.events
    && (forall i, j :: 0 <= i < j < |s.pending| ==> s.pending[i] != s.pending[j])
    && (forall i :: 0 <= i < |s.pending| ==> s.pending[i] in s.conns)
    && s.triggers == (if s.pending == [] then 0 else 1)
  }

  function ToSet(fds: seq<int>): set<int> {
    set i | 0 <= i < |fds| :: fds[i]
  }

  lemma {:induction false} CloseEachErases(s: Loop, fds: seq<int>)
    requires forall i, j :: 0 <= i < j < |fds| ==> fds[i] != fds[j]
    requires forall i :: 0 <= i < |fds| ==> fds[i] in s.conns
    ensures CloseEach(s, fds) == Some(s.(conns := s.conns - ToSet(fds), events := s.events - ToSet(fds)))
    decreases |fds|
  {
    if fds == [] {
      assert s.conns - ToSet(fds) == s.conns && s.events - ToSet(fds) == s.events;
    } else {
      var next := s.(conns := s.conns - {fds[0]}, events := s.events - {fds[0]});
      CloseEachErases(next, fds[1..]);
      assert ToSet(fds) == {fds[0]} + ToSet(fds[1..]) by {
        assert fds == [fds[0]] + fds[1..];
      }
      assert next.conns - ToSet(fds[1..]) == s.conns - ToSet(fds);
      assert next.events - ToSet(fds[1..]) == s.events - ToSet(fds);
    }
  }

  /** The assertion in handleCloseConnect holds throughout exactly when the list names open
      connections and none of them twice. */
  lemma {:induction false} CloseSucceedsIff(s: Loop, fds: seq<int>)
    ensures CloseEach(s, fds).Some? <==>
              (forall i, j :: 0 <= i < j < |fds| ==> fds[i] != fds[j]) && forall i :: 0 <= i < |fds| ==> fds[i] in s.conns
    decreases |fds|
  {
    if fds != [] {
      var next := s.(conns := s.conns - {fds[0]}, events := s.events - {fds[0]});
      var rest := fds[1..];
      CloseSucceedsIff(next, rest);
      assert forall i :: 0 < i < |fds| ==> fds[i] == rest[i - 1];
      assert forall i :: 0 <= i < |rest| ==> rest[i] == fds[i + 1];
    }
  }

  /** Between two polls every disconnected client is erased, each exactly once, and nobody else. */
  lemma TriggersErasePending(s: Loop)
    requires Invariant(s)
    ensures HandleTriggers(s)
         == Some(s.(conns := s.conns - ToSet(s.pending), events := s.events - ToSet(s.pending), pending := [], triggers := 0))
    ensures Invariant(HandleTriggers(s).value)
    ensures |s.conns - ToSet(s.pending)| == |s.conns| - |s.pending|
  {
    if s.pending == [] {
      assert s.conns - ToSet([]) == s.conns && s.events - ToSet([]) == s.events;
    } else {
      TriggerErasesPending(s);
    }
    hide HandleTriggers;
    SetSize(s.pending);
    assert ToSet(s.pending) <= s.conns;
  }

  lemma TriggerErasesPending(s: Loop)
    requires Invariant(s) && s.pending != []
    ensures HandleTriggers(s)
         == Some(s.(conns := s.conns - ToSet(s.pending), events := s.events - ToSet(s.pending), pending := [], triggers := 0))
  {
    CloseEachErases(s.(triggers := 0), s.pending);
    hide CloseEach, ToSet;
  }

  lemma {:induction false} SetSize(fds: seq<int>)
    requires forall i, j :: 0 <= i < j < |fds| ==> fds[i] != fds[j]
    ensures |ToSet(fds)| == |fds|
    decreases |fds|
  {
    if fds != [] {
      var init, last := fds[..|fds| - 1], fds[|fds| - 1];
      SetSize(init);
      assert ToSet(fds) == ToSet(init) + {last} && last !in ToSet(init);
    }
  }

  /** The descriptors of a batch's connections that have gone, in dispatch order. */
  function GoneIn(batch: seq<Ready>): seq<int> {
    if batch == [] then [] else
      var r := batch[|batch| - 1];
      GoneIn(batch[..|batch| - 1]) + if r.what.Gone? then [r.fd] else []
  }

  function AcceptedIn(batch: seq<Ready>): set<int> {
    if batch == [] then {} else
      var r := batch[|batch| - 1];
      AcceptedIn(batch[..|batch| - 1]) + if r.what.Accepted? then {r.what.newFd} else {}
  }

  lemma {:induction false} GoneInBatch(s: Loop, batch: seq<Ready>)
    requires Possible(s, batch)
    ensures forall i :: 0 <= i < |GoneIn(batch)| ==>
              GoneIn(batch)[i] != s.listener && GoneIn(batch)[i] in s.events && exists j :: 0 <= j < |batch| && batch[j].fd == GoneIn(batch)[i]
    ensures forall i, j :: 0 <= i < j < |GoneIn(batch)| ==> GoneIn(batch)[i] != GoneIn(batch)[j]
    ensures AcceptedIn(batch) !! s.events + s.timers
    decreases |batch|
  {
    if batch != [] {
      var init, r := batch[..|batch| - 1], batch[|batch| - 1];
      GoneInBatch(s, init);
      forall i | 0 <= i < |GoneIn(init)| ensures GoneIn(init)[i] != r.fd
        ensures exists j :: 0 <= j < |batch| && batch[j].fd == GoneIn(init)[i]
      {
        var j :| 0 <= j < |init| && init[j].fd == GoneIn(init)[i];
        assert batch[j].fd == init[j].fd;
      }
    }
  }

  /** No handler removes a key, so every descriptor of the batch is found, whatever the handlers
      before it did: the batch's connections that have gone are queued in order, the accepted
      ones are registered, and the trigger is queued once if anything is queued at all. */
  lemma {:induction false} PollDispatchesAll(s: Loop, batch: seq<Ready>)
    requires Invariant(s) && s.pending == [] && Possible(s, batch)
    ensures Poll(s, batch)
         == Some(s.(conns := s.conns + AcceptedIn(batch), events := s.events + AcceptedIn(batch),
                    pending := GoneIn(batch), triggers := if GoneIn(batch) == [] then 0 else 1))
    decreases |batch|
  {
    if batch == [] {
      assert s.conns + {} == s.conns && s.events + {} == s.events;
    } else {
      var init, r := batch[..|batch| - 1], batch[|batch| - 1];
      assert batch == init + [r];
      assert Possible(s, init);
      PollDispatchesAll(s, init);
      assert PossibleReady(s, r);
      GoneInBatch(s, init);
      DispatchFinds(s, init, r);
    }
  }

  lemma DispatchFinds(s: Loop, init: seq<Ready>, r: Ready)
    requires Invariant(s) && PossibleReady(s, r) && AcceptedIn(init) !! s.events + s.timers
    ensures var mid := s.(conns := s.conns + AcceptedIn(init), events := s.events + AcceptedIn(init),
                          pending := GoneIn(init), triggers := if GoneIn(init) == [] then 0 else 1);
            Dispatch(mid, r)
            == Some(s.(conns := s.conns + AcceptedIn(init + [r]), events := s.events + AcceptedIn(init + [r]),
                       pending := GoneIn(init + [r]), triggers := if GoneIn(init + [r]) == [] then 0 else 1))
  {
    assert (init + [r])[..|init|] == init;
    var accepted := AcceptedIn(init);
    assert accepted + {} == accepted && GoneIn(init) + [] == GoneIn(init);
    if r.what.Accepted? {
      assert s.conns + accepted + {r.what.newFd} == s.conns + (accepted + {r.what.newFd});
      assert s.events + accepted + {r.what.newFd} == s.events + (accepted + {r.what.newFd});
    }
  }

  /** The whole effect of one turn of the loop. */
  lemma RoundEffect(s: Loop, batch: seq<Ready>)
    requires Invariant(s)
    requires HandleTriggers(s).Some? ==> Possible(HandleTriggers(s).value, batch)
    ensures Round(s, batch).Some? && Invariant(Round(s, batch).value)
    ensures var s' := Round(s, batch).value;
            && s'.conns == s.conns - ToSet(s.pending) + AcceptedIn(batch)
            && s'.pending == GoneIn(batch)
            && s'.timers == s.timers && s'.listener == s.listener
  {
    TriggersErasePending(s);
    var mid := HandleTriggers(s).value;
    PollDispatchesAll(mid, batch);
    PollKeepsInvariant(mid, batch);
  }

  lemma PollKeepsInvariant(s: Loop, batch: seq<Ready>)
    requires Invariant(s) && s.pending == [] && Possible(s, batch)
    ensures Poll(s, batch).Some? && Invariant(Poll(s, batch).value)
  {
    PollDispatchesAll(s, batch);
    GoneInBatch(s, batch);
    hide Poll, Possible, GoneIn, AcceptedIn;
    var s' := Poll(s, batch).value;
    assert s'.events == {s'.listener} + s'.conns && s'.timers !! s'.events;
    forall i | 0 <= i < |s'.pending| ensures s'.pending[i] in s'.conns {
      assert s'.pending[i] in s.events;
    }
  }

  /** In every run no assertion and no lookup fails, and the invariant holds after every round. The
      listener and the timers are those the loop was started with, and each of them is found
      whenever it is ready. */
  lemma {:induction false} LoopNeverFails(listener: int, timers: set<int>, rounds: seq<seq<Ready>>)
    requires listener !in timers && PossibleRounds(Start(listener, timers), rounds)
    ensures AfterRounds(Start(listener, timers), rounds).Some?
    ensures var s := AfterRounds(Start(listener, timers), rounds).value;
            && Invariant(s)
            && s.listener == listener && s.timers == timers
            && (forall t :: t in timers ==> Dispatch(s, Ready(t, Timeout)) == Some(s))
            && forall newFd :: Dispatch(s, Ready(listener, Accepted(newFd))).Some?
    decreases |rounds|
  {
    var s := Start(listener, timers);
    if rounds != [] {
      var init, batch := rounds[..|rounds| - 1], rounds[|rounds| - 1];
      LoopNeverFails(listener, timers, init);
      var mid := AfterRounds(s, init).value;
      TriggersErasePending(mid);
      assert Possible(HandleTriggers(mid).value, batch);
      RoundEffect(mid, batch);
    }
  }

  // ----- Prefixes of a run that does not fail -----

  lemma {:induction false} PrefixesDispatch(s: Loop, batch: seq<Ready>)
    requires Poll(s, batch).Some?
    ensures forall i :: 0 <= i <= |batch| ==> Poll(s, batch[..i]).Some?
    decreases |batch|
  {
    assert batch[..|batch|] == batch;
    if batch != [] {
      var init := batch[..|batch| - 1];
      PrefixesDispatch(s, init);
      assert forall i :: 0 <= i < |batch| ==> batch[..i] == init[..i];
    }
  }

  lemma {:induction false} PrefixesRun(s: Loop, rounds: seq<seq<Ready>>)
    requires AfterRounds(s, rounds).Some?
    ensures forall i :: 0 <= i <= |rounds| ==> AfterRounds(s, rounds[..i]).Some?
    decreases |rounds|
  {
    assert rounds[..|rounds|] == rounds;
    if rounds != [] {
      var init := rounds[..|rounds| - 1];
      PrefixesRun(s, init);
      assert forall i :: 0 <= i < |rounds| ==> rounds[..i] == init[..i];
    }
  }

  // ----- A run -----

  lemma OneMoreRound(s: Loop, rounds: seq<seq<Ready>>, mid: Loop, batch: seq<Ready>, handled: Loop, next: Loop)
    requires PossibleRounds(s, rounds) && AfterRounds(s, rounds) == Some(mid)
    requires HandleTriggers(mid) == Some(handled) && Possible(handled, batch) && Poll(handled, batch) == Some(next)
    ensures PossibleRounds(s, rounds + [batch]) && AfterRounds(s, rounds + [batch]) == Some(next)
  {
    assert (rounds + [batch])[..|rounds|] == rounds;
    hide HandleTriggers, Poll, Possible;
  }

  lemma PollOne(s: Loop, r: Ready)
    requires PossibleReady(s, r)
    ensures Possible(s, [r]) && Poll(s, [r]) == Dispatch(s, r)
  {
    assert [r][..0] == [];
  }

  lemma PollTwo(s: Loop, q: Ready, r: Ready)
    requires PossibleReady(s, q) && PossibleReady(s, r) && q.fd != r.fd && Dispatch(s, q).Some?
    ensures Possible(s, [q, r]) && Poll(s, [q, r]) == Dispatch(Dispatch(s, q).value, r)
  {
    assert [q, r][..1] == [q];
    PollOne(s, q);
    hide PossibleReady, Dispatch;
  }

  lemma EraseOne(listener: int, timer: int, fd: int)
    requires listener != timer && fd != listener && fd != timer
    ensures HandleTriggers(Loop(listener, {fd}, {listener, fd}, {timer}, [fd], 1)) == Some(Loop(listener, {}, {listener}, {timer}, [], 0))
  {
    var s := Loop(listener, {fd}, {listener, fd}, {timer}, [fd], 1);
    assert Invariant(s);
    TriggersErasePending(s);
    hide HandleTriggers;
    assert ToSet([fd]) == {fd} by { assert [fd][0] == fd; }
    assert {fd} - {fd} == {} && {listener, fd} - {fd} == {listener};
  }

  /** A client is accepted while a timer fires, and sends a request; it goes, and the loop forgets it
      at the next turn. */
  lemma ClientComesAndGoes(listener: int, timer: int, fd: int)
    requires listener != timer && fd != listener && fd != timer
    ensures var s, rounds := Start(listener, {timer}), [[Ready(listener, Accepted(fd)), Ready(timer, Timeout)], [Ready(fd, Request)], [Ready(fd, Gone)], []];
            && PossibleRounds(s, rounds)
            && AfterRounds(s, rounds[..2]) == Some(Loop(listener, {fd}, {listener, fd}, {timer}, [], 0))
            && AfterRounds(s, rounds[..3]) == Some(Loop(listener, {fd}, {listener, fd}, {timer}, [fd], 1))
            && AfterRounds(s, rounds) == Some(Loop(listener, {}, {listener}, {timer}, [], 0))
  {
    var s := Start(listener, {timer});
    var open, gone := Loop(listener, {fd}, {listener, fd}, {timer}, [], 0), Loop(listener, {fd}, {listener, fd}, {timer}, [fd], 1);
    var end := Loop(listener, {}, {listener}, {timer}, [], 0);
    assert {} + {fd} == {fd} && {listener} + {fd} == {listener, fd} && [] + [fd] == [fd];
    PollTwo(s, Ready(listener, Accepted(fd)), Ready(timer, Timeout));
    OneMoreRound(s, [], s, [Ready(listener, Accepted(fd)), Ready(timer, Timeout)], s, open);
    PollOne(open, Ready(fd, Request));
    PollOne(open, Ready(fd, Gone));
    EraseOne(listener, timer, fd);
    hide HandleTriggers, Possible, PossibleRounds, AfterRounds;
    var rounds := [[Ready(listener, Accepted(fd)), Ready(timer, Timeout)]];
    assert [] + rounds == rounds && HandleTriggers(open) == Some(open) by { NothingPending(open); }
    OneMoreRound(s, rounds, open, [Ready(fd, Request)], open, open);
    OneMoreRound(s, rounds + [[Ready(fd, Request)]], open, [Ready(fd, Gone)], open, gone);
    assert Possible(end, []) by { NothingReady(end); }
    OneMoreRound(s, rounds + [[Ready(fd, Request)]] + [[Ready(fd, Gone)]], gone, [], end, end);
    var all := rounds + [[Ready(fd, Request)]] + [[Ready(fd, Gone)]] + [[]];
    assert all == [[Ready(listener, Accepted(fd)), Ready(timer, Timeout)], [Ready(fd, Request)], [Ready(fd, Gone)], []];
    assert all[..2] == rounds + [[Ready(fd, Request)]] && all[..3] == rounds + [[Ready(fd, Request)]] + [[Ready(fd, Gone)]];
  }

  lemma NothingPending(s: Loop)
    requires s.triggers == 0
    ensures HandleTriggers(s) == Some(s)
  {
  }

  lemma NothingReady(s: Loop)
    ensures Possible(s, [])
  {
  }
}
