/**
 The whole server as one machine: the prefetch pipeline, the sinks and the clients.

 Source 0 feeds the sink of track 0 and source 1 that of track 1. One thread runs the event
 loop: while it is inside ReadFrame, or holds a frame that sendFrame has not sent yet, it handles
 no other timer and no client. The frame sent is the frame ReadFrame has returned.
 */
module Serving {
  import opened Bytes
  import opened Rtp
  import P = Prefetch
  import S = Streaming
  import opened Reassembly

  datatype State = State(
    pool: P.State,
    clients: S.State,
    inHand: Option<(nat, seq<byte>)>)  // the frame between ReadFrame and sendFrame, and its track

  datatype Step =
    | Pool(a: P.Action)    // a step of the workers, or of the event loop inside ReadFrame
    | Send(after: byte)    // sendFrame; `after` is the byte behind the frame in memory
    | Client(e: S.Event)   // accept, a request, a close

  function Init(ssrc0: nat, ssrc1: nat): State {
    State(P.Init(2), S.Init(ssrc0, ssrc1), None)
  }

  function FrameEvent(hand: (nat, seq<byte>), after: byte): S.Event {
    S.Frame(hand.0, hand.1, after)
  }

  /** An audio frame that overruns the sink's buffer cannot be sent: what the program does from
      there on is not defined. */
  predicate Enabled(st: State, workers: nat, step: Step) {
    match step
    case Pool(a) => P.Enabled(st.pool, workers, a) && (a.Tick? ==> st.inHand == None)
    case Send(after) =>
      st.inHand.Some? && st.pool.loop.Idle? && S.Enabled(st.clients, FrameEvent(st.inHand.value, after))
    case Client(e) => st.inHand == None && st.pool.loop.Idle? && !e.Frame? && S.Enabled(st.clients, e)
  }

  /** ReadFrame has got a frame. */
  predicate Delivers(pool: P.State, a: P.Action) {
    a.Check? && pool.loop.Checking? && pool.loop.s < |pool.sources| && pool.sources[pool.loop.s].frames != []
  }

  ghost function Apply(st: State, workers: nat, feed: P.Feed, step: Step): State
    requires S.InRange(st.clients) && Enabled(st, workers, step)
  {
    match step
    case Pool(a) =>
      st.(pool := P.Apply(st.pool, workers, feed, a),
          inHand := if Delivers(st.pool, a) then Some((st.pool.loop.s, st.pool.sources[st.pool.loop.s].frames[0])) else st.inHand)
    case Send(after) => st.(clients := S.Apply(st.clients, FrameEvent(st.inHand.value, after)), inHand := None)
    case Client(e) => st.(clients := S.Apply(st.clients, e))
  }

  /** The state after a run; None if the run is not possible. */
  ghost function After(st: State, workers: nat, feed: P.Feed, steps: seq<Step>): Option<State> {
    if steps == [] then Some(st) else
      match After(st, workers, feed, steps[..|steps| - 1])
      case None => None
      case Some(mid) =>
        var step := steps[|steps| - 1];
        if S.InRange(mid.clients) && Enabled(mid, workers, step) then Some(Apply(mid, workers, feed, step)) else None
  }

  // ----- The two machines inside -----

  function PoolActions(steps: seq<Step>): seq<P.Action> {
    if steps == [] then [] else
      PoolActions(steps[..|steps| - 1]) + match steps[|steps| - 1] case Pool(a) => [a] case _ => []
  }

  /** What happens to the clients and sinks in a run. */
  ghost function Events(st: State, workers: nat, feed: P.Feed, steps: seq<Step>): seq<S.Event>
    requires After(st, workers, feed, steps).Some?
  {
    if steps == [] then [] else
      var init := steps[..|steps| - 1];
      Events(st, workers, feed, init)
      + match steps[|steps| - 1]
        case Pool(_) => []
        case Send(after) => [FrameEvent(After(st, workers, feed, init).value.inHand.value, after)]
        case Client(e) => [e]
  }

  lemma OneMoreAction(st: P.State, workers: nat, feed: P.Feed, actions: seq<P.Action>, mid: P.State, a: P.Action)
    requires P.Run(st, workers, feed, actions, mid) && P.Enabled(mid, workers, a)
    ensures P.Run(st, workers, feed, actions + [a], P.Apply(mid, workers, feed, a))
  {
    var next := P.Apply(mid, workers, feed, a);
    assert [a][1..] == [] && P.Run(next, workers, feed, [], next);
    hide P.Enabled, P.Apply;
    P.RunAppend(st, workers, feed, actions, mid, [a], next);
  }

  /** A run of the server is a run of each of the two machines. */
  lemma {:induction false} RunsBoth(ssrc0: nat, ssrc1: nat, workers: nat, feed: P.Feed, steps: seq<Step>)
    requires After(Init(ssrc0, ssrc1), workers, feed, steps).Some?
    ensures var st := After(Init(ssrc0, ssrc1), workers, feed, steps).value;
            && P.Run(P.Init(2), workers, feed, PoolActions(steps), st.pool)
            && S.After(S.Init(ssrc0, ssrc1), Events(Init(ssrc0, ssrc1), workers, feed, steps)) == Some(st.clients)
    decreases |steps|
  {
    if steps != [] {
      var start, init, step := Init(ssrc0, ssrc1), steps[..|steps| - 1], steps[|steps| - 1];
      RunsBoth(ssrc0, ssrc1, workers, feed, init);
      var mid := After(start, workers, feed, init).value;
      var actions, events := PoolActions(init), Events(start, workers, feed, init);
      hide P.Enabled, P.Apply, P.Run, S.Enabled, S.Apply, S.After, P.Init, S.Init;
      match step
      case Pool(a) =>
        OneMoreAction(P.Init(2), workers, feed, actions, mid.pool, a);
        assert events + [] == events;
      case Send(after) =>
        S.OneMoreEvent(S.Init(ssrc0, ssrc1), events, FrameEvent(mid.inHand.value, after));
        assert actions + [] == actions;
      case Client(e) =>
        S.OneMoreEvent(S.Init(ssrc0, ssrc1), events, e);
        assert actions + [] == actions;
    }
  }

  // ----- What is delivered is what is sent -----

  /** All frames sent on a track. */
  function FramesSent(events: seq<S.Event>, t: nat): seq<seq<byte>> {
    if events == [] then [] else
      FramesSent(events[..|events| - 1], t)
      + match events[|events| - 1] case Frame(track, frame, _) => if track == t then [frame] else [] case _ => []
  }

  function InHand(st: State, t: nat): seq<seq<byte>> {
    if st.inHand.Some? && st.inHand.value.0 == t then [st.inHand.value.1] else []
  }

  /** A frame is in hand only while the event loop is on its way from ReadFrame to sendFrame. */
  ghost predicate HandOk(st: State) {
    && |st.pool.sources| == 2
    && (st.inHand.Some? ==>
          st.inHand.value.0 < 2 && (st.pool.loop == P.Refilling(st.inHand.value.0) || st.pool.loop == P.Idle))
  }

  lemma PoolStep(st: State, workers: nat, feed: P.Feed, a: P.Action, t: nat, sent: seq<seq<byte>>)
    requires S.InRange(st.clients) && Enabled(st, workers, Pool(a)) && t < 2
    requires HandOk(st) && sent + InHand(st, t) == st.pool.sources[t].delivered
    ensures var next := Apply(st, workers, feed, Pool(a));
            HandOk(next) && sent + InHand(next, t) == next.pool.sources[t].delivered
  {
    if Delivers(st.pool, a) {
      assert st.inHand == None && sent + [] == sent;
    }
  }

  lemma OtherStep(st: State, workers: nat, feed: P.Feed, step: Step, t: nat, sent: seq<seq<byte>>)
    requires S.InRange(st.clients) && Enabled(st, workers, step) && !step.Pool? && t < 2
    requires HandOk(st) && sent + InHand(st, t) == st.pool.sources[t].delivered
    ensures var next := Apply(st, workers, feed, step);
            && HandOk(next) && next.pool == st.pool && InHand(next, t) == []
            && st.pool.sources[t].delivered == sent + if step.Send? && st.inHand.value.0 == t then [st.inHand.value.1] else []
  {
    hide S.Apply, S.Enabled, S.InRange;
  }

  lemma OneMoreSent(events: seq<S.Event>, e: S.Event, t: nat)
    ensures FramesSent(events + [e], t) == FramesSent(events, t) + if e.Frame? && e.track == t then [e.frame] else []
  {
    assert (events + [e])[..|events|] == events;
  }

  /** In every run and on each track, the frames sent and the frame in hand are together exactly the
      frames that ReadFrame has delivered. */
  lemma {:induction false} SentIsDelivered(ssrc0: nat, ssrc1: nat, workers: nat, feed: P.Feed, steps: seq<Step>, t: nat)
    requires After(Init(ssrc0, ssrc1), workers, feed, steps).Some? && t < 2
    ensures var st := After(Init(ssrc0, ssrc1), workers, feed, steps).value;
            && HandOk(st)
            && FramesSent(Events(Init(ssrc0, ssrc1), workers, feed, steps), t) + InHand(st, t) == st.pool.sources[t].delivered
    decreases |steps|
  {
    if steps != [] {
      var start, init, step := Init(ssrc0, ssrc1), steps[..|steps| - 1], steps[|steps| - 1];
      SentIsDelivered(ssrc0, ssrc1, workers, feed, init, t);
      var mid, events := After(start, workers, feed, init).value, Events(start, workers, feed, init);
      var sent := FramesSent(events, t);
      match step {
        case Pool(a) =>
          PoolStep(mid, workers, feed, a, t, sent);
          assert events + [] == events;
        case Send(after) =>
          OtherStep(mid, workers, feed, step, t, sent);
          OneMoreSent(events, FrameEvent(mid.inHand.value, after), t);
        case Client(e) =>
          OtherStep(mid, workers, feed, step, t, sent);
          OneMoreSent(events, e, t);
      }
      hide HandOk, InHand, Apply, Enabled, FramesSent, S.InRange, P.Init, S.Init;
    }
  }

  // ----- What a client sees of it -----

  lemma OneMoreSeen(h: RtpHeader, fd: int, t: nat, events: seq<S.Event>, e: S.Event)
    ensures FramesOf(FramesSeen(h, fd, t, events + [e]))
         == if !S.SeenBy(h, fd, t, events + [e]).Playing? then []
            else FramesOf(FramesSeen(h, fd, t, events)) + if e.Frame? && e.track == t then [e.frame] else []
  {
    assert (events + [e])[..|events|] == events;
    hide S.SeenBy;
  }

  /** The last elements of a list, and the same when more are added, or from an empty end. */
  lemma SuffixGrows<T>(sent: seq<T>, seen: seq<T>, more: seq<T>)
    requires |seen| <= |sent| && seen == sent[|sent| - |seen|..]
    ensures seen + more == (sent + more)[|sent + more| - |seen + more|..]
    ensures (sent + more)[|sent + more|..] == []
  {
  }

  /** A client that plays sees the frames of a track sent last, from its PLAY on. */
  lemma {:induction false} SeesTheLastFrames(h: RtpHeader, fd: int, t: nat, events: seq<S.Event>)
    ensures var sent, seen := FramesSent(events, t), FramesOf(FramesSeen(h, fd, t, events));
            |seen| <= |sent| && seen == sent[|sent| - |seen|..]
    decreases |events|
  {
    if events != [] {
      var init, e := events[..|events| - 1], events[|events| - 1];
      hide S.SeenBy, FramesSeen, FramesSent, FramesOf, S.NextSeen;
      SeesTheLastFrames(h, fd, t, init);
      assert events == init + [e];
      OneMoreSent(init, e, t);
      OneMoreSeen(h, fd, t, init, e);
      assert FramesSent(init, t) + [] == FramesSent(init, t);
      var more := if e.Frame? && e.track == t then [e.frame] else [];
      SuffixGrows(FramesSent(init, t), FramesOf(FramesSeen(h, fd, t, init)), more);
      hide *;
    }
  }
}
