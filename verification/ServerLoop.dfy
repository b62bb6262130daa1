/** The event loop, in place: the tables and lists of RtspServer, Scheduler and EpollPoller and
    the loops over them, proved to act as the functions of module EventLoop. */
module ServerLoop {
  import opened Bytes
  import L = EventLoop

  /** RtspServer, Scheduler and EpollPoller: their tables, lists and loops. */
  class Server {
    const listener: int
    var fd2conn: set<int>
    var fd2event: set<int>
    var fd2timer: set<int>
    var disconnectList: seq<int>
    var triggerEvents: nat

    ghost function View(): L.Loop
      reads this
    {
      L.Loop(listener, fd2conn, fd2event, fd2timer, disconnectList, triggerEvents)
    }

    constructor (listener: int, timers: set<int>)
      ensures View() == L.Loop(listener, {}, {listener}, timers, [], 0)
    {
      this.listener := listener;
      fd2conn, fd2event, fd2timer, disconnectList, triggerEvents := {}, {listener}, timers, [], 0;
    }

    method HandleRead(newFd: int)
      modifies this
      ensures View() == L.HandleRead(old(View()), newFd)
    {
      fd2event := fd2event + {newFd};
      fd2conn := fd2conn + {newFd};
    }

    method HandleDisConnect(clientFd: int)
      modifies this
      ensures View() == L.HandleDisconnect(old(View()), clientFd)
    {
      disconnectList := disconnectList + [clientFd];
      if |disconnectList| == 1 {
        triggerEvents := triggerEvents + 1;
      }
    }

    /** Erases every listed connection; the assertion of the source holds each time. */
    method HandleCloseConnect()
      requires L.HandleClose(View()).Some?
      modifies this
      ensures L.HandleClose(old(View())) == Some(View())
    {
      ghost var goal := L.CloseEach(View(), disconnectList);
      for i := 0 to |disconnectList|
        invariant disconnectList == old(disconnectList)
        invariant L.CloseEach(View(), disconnectList[i..]) == goal
      {
        var clientFd := disconnectList[i];
        assert clientFd in fd2conn;
        fd2conn := fd2conn - {clientFd};
        fd2event := fd2event - {clientFd};
      }
      disconnectList := [];
    }

    method HandleTriggerEvent()
      requires L.HandleTriggers(View()).Some?
      modifies this
      ensures L.HandleTriggers(old(View())) == Some(View())
    {
      while triggerEvents > 0
        invariant L.HandleTriggers(View()) == L.HandleTriggers(old(View()))
        decreases triggerEvents
      {
        triggerEvents := triggerEvents - 1;
        HandleCloseConnect();
      }
    }

    method Poll(batch: seq<L.Ready>)
      requires L.Poll(View(), batch).Some?
      modifies this
      ensures L.Poll(old(View()), batch) == Some(View())
    {
      L.PrefixesDispatch(View(), batch);
      for i := 0 to |batch|
        invariant L.Poll(old(View()), batch[..i]) == Some(View())
      {
        var r := batch[i];
        assert batch[..i + 1][..i] == batch[..i];
        assert L.Poll(old(View()), batch[..i + 1]).Some?;
        assert r.fd in fd2event || r.fd in fd2timer;
        if r.fd in fd2event {
          match r.what
          case Accepted(newFd) => HandleRead(newFd);
          case Gone => HandleDisConnect(r.fd);
          case _ =>
        }
      }
      assert batch[..|batch|] == batch;
    }

    /** Scheduler::loop for the rounds the kernel has come up with: no assertion and no lookup
        fails, the tables are consistent at the end, and no timer is lost. */
    method RunLoop(rounds: seq<seq<L.Ready>>)
      requires listener !in fd2timer && View() == L.Start(listener, fd2timer)
      requires L.PossibleRounds(View(), rounds)
      modifies this
      ensures L.AfterRounds(old(View()), rounds) == Some(View()) && L.Invariant(View())
      ensures fd2timer == old(fd2timer)
    {
      ghost var start := View();
      L.LoopNeverFails(listener, fd2timer, rounds);
      L.PrefixesRun(start, rounds);
      for i := 0 to |rounds|
        invariant L.AfterRounds(start, rounds[..i]) == Some(View())
      {
        assert rounds[..i + 1][..i] == rounds[..i];
        assert L.AfterRounds(start, rounds[..i + 1]).Some?;
        HandleTriggerEvent();
        Poll(rounds[i]);
      }
      assert rounds[..|rounds|] == rounds;
    }
  }
}
