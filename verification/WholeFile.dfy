/** The server can do its work: there is a run in which a client is sent all of the video file and
    all of the audio file. */
module WholeFile {
  import opened Bytes
  import opened Rtp
  import opened AnnexB
  import opened Pipeline
  import opened Reassembly
  import opened Serving
  import opened EndToEnd
  import opened Ring
  import opened AudioEndToEnd
  import AP = AacPackets
  import A = Adts
  import AE = AdtsEnd
  import P = Prefetch
  import S = Streaming
  import E = H264Exact

  /** A client that plays and has seen every frame of track t sent so far. */
  ghost predicate SeesAll(h: RtpHeader, fd: int, t: nat, events: seq<S.Event>) {
    S.SeenBy(h, fd, t, events).Playing? && |FramesSeen(h, fd, t, events)| == |FramesSent(events, t)|
  }

  /** Both tracks go to the client over its connection, each on a channel of its own. */
  ghost predicate OnChannels(st: S.State, fd: int, channels: (byte, byte)) {
    && S.Uses(st, fd, 0, channels.0) && !S.Uses(st, fd, 1, channels.0)
    && S.Uses(st, fd, 1, channels.1) && !S.Uses(st, fd, 0, channels.1)
  }

  /** The client has named them so. */
  predicate NamedChannels(events: seq<S.Event>, fd: int, channels: (byte, byte)) {
    && S.ReadsOn(fd, 0, channels.0, events) && !S.ReadsOn(fd, 1, channels.0, events)
    && S.ReadsOn(fd, 1, channels.1, events) && !S.ReadsOn(fd, 0, channels.1, events)
  }

  lemma ChannelsAreNamed(ssrc0: nat, ssrc1: nat, events: seq<S.Event>, st: S.State, fd: int, channels: (byte, byte))
    requires ssrc0 < 0x1_0000_0000 && ssrc1 < 0x1_0000_0000
    requires S.After(S.Init(ssrc0, ssrc1), events) == Some(st) && OnChannels(st, fd, channels)
    ensures NamedChannels(events, fd, channels)
  {
    hide S.After, S.Init, S.Uses, S.ReadsOn;
    S.UsesWhatItNamed(ssrc0, ssrc1, events, fd, 0, channels.0);
    S.UsesWhatItNamed(ssrc0, ssrc1, events, fd, 1, channels.0);
    S.UsesWhatItNamed(ssrc0, ssrc1, events, fd, 1, channels.1);
    S.UsesWhatItNamed(ssrc0, ssrc1, events, fd, 0, channels.1);
  }

  /** The server after some steps, with a client that has seen every frame sent so far. */
  ghost predicate Serves(start: State, workers: nat, feed: P.Feed, steps: seq<Step>, st: State, fd: int, channels: (byte, byte)) {
    && After(start, workers, feed, steps) == Some(st)
    && |start.clients.headers| == 2
    && S.Shape(st.clients) && P.Invariant(st.pool, workers, feed) && HandOk(st)
    && OnChannels(st.clients, fd, channels)
    && var events := Events(start, workers, feed, steps);
       && SeesAll(start.clients.headers[0], fd, 0, events)
       && SeesAll(start.clients.headers[1], fd, 1, events)
  }

  lemma OneMoreStep(start: State, workers: nat, feed: P.Feed, steps: seq<Step>, step: Step)
    requires After(start, workers, feed, steps).Some?
    requires var mid := After(start, workers, feed, steps).value; S.InRange(mid.clients) && Enabled(mid, workers, step)
    ensures var mid := After(start, workers, feed, steps).value;
            && After(start, workers, feed, steps + [step]) == Some(Apply(mid, workers, feed, step))
            && Events(start, workers, feed, steps + [step])
            == Events(start, workers, feed, steps)
               + match step case Pool(_) => [] case Send(after) => [FrameEvent(mid.inHand.value, after)] case Client(e) => [e]
  {
    assert (steps + [step])[..|steps|] == steps;
    hide Enabled, Apply, S.InRange;
  }

  /** A frame is seen by the client as it is sent. */
  lemma FrameIsSeen(h: RtpHeader, fd: int, t: nat, events: seq<S.Event>, e: S.Event)
    requires SeesAll(h, fd, t, events) && e.Frame?
    ensures SeesAll(h, fd, t, events + [e])
  {
    assert (events + [e])[..|events|] == events;
    OneMoreSent(events, e, t);
  }

  lemma FrameKeepsChannels(st: S.State, e: S.Event, fd: int, channels: (byte, byte))
    requires S.InRange(st) && S.Enabled(st, e) && e.Frame? && OnChannels(st, fd, channels)
    ensures OnChannels(S.Apply(st, e), fd, channels)
  {
    hide S.FramePackets, S.HeaderAfter;
  }

  lemma PoolServes(start: State, workers: nat, feed: P.Feed, steps: seq<Step>, st: State, fd: int, channels: (byte, byte), a: P.Action)
    requires Serves(start, workers, feed, steps, st, fd, channels) && Enabled(st, workers, Pool(a))
    ensures S.InRange(st.clients)
    ensures Serves(start, workers, feed, steps + [Pool(a)], Apply(st, workers, feed, Pool(a)), fd, channels)
  {
    var events := Events(start, workers, feed, steps);
    OneMoreStep(start, workers, feed, steps, Pool(a));
    P.StepKeepsInvariant(st.pool, workers, feed, a);
    assert events + [] == events;
    assert HandOk(Apply(st, workers, feed, Pool(a)));
    hide After, Events, SeesAll, P.Invariant, P.Apply, P.Enabled, OnChannels, S.InRange;
  }

  lemma SendServes(start: State, workers: nat, feed: P.Feed, steps: seq<Step>, st: State, fd: int, channels: (byte, byte), after: byte)
    requires Serves(start, workers, feed, steps, st, fd, channels) && Enabled(st, workers, Send(after))
    ensures S.InRange(st.clients)
    ensures Serves(start, workers, feed, steps + [Send(after)], Apply(st, workers, feed, Send(after)), fd, channels)
  {
    var events, e := Events(start, workers, feed, steps), FrameEvent(st.inHand.value, after);
    OneMoreStep(start, workers, feed, steps, Send(after));
    hide After, Events, SeesAll, P.Invariant, OnChannels, S.Enabled, S.Apply;
    S.StepKeepsShape(st.clients, e);
    FrameKeepsChannels(st.clients, e, fd, channels);
    FrameIsSeen(start.clients.headers[0], fd, 0, events, e);
    FrameIsSeen(start.clients.headers[1], fd, 1, events, e);
  }

  // ----- From a run of the prefetch pipeline to a run of the server -----

  /** No audio frame is too long for the sink's buffer. */
  ghost predicate AudioFits(feed: P.Feed) {
    forall i: nat :: !AP.Overruns(feed(1, i))
  }

  lemma {:induction false} ResultsFit(feed: P.Feed, n: nat)
    requires AudioFits(feed)
    ensures forall i :: 0 <= i < |P.NonEmpty(feed, 1, n)| ==> !AP.Overruns(P.NonEmpty(feed, 1, n)[i])
  {
    if n > 0 {
      ResultsFit(feed, n - 1);
    }
  }

  /** The frame in hand can be sent. */
  lemma HandFits(ssrc0: nat, ssrc1: nat, workers: nat, feed: P.Feed, steps: seq<Step>)
    requires AudioFits(feed) && After(Init(ssrc0, ssrc1), workers, feed, steps).Some?
    ensures var st := After(Init(ssrc0, ssrc1), workers, feed, steps).value;
            st.inHand.Some? && st.inHand.value.0 == 1 ==> !AP.Overruns(st.inHand.value.1)
  {
    hide After, Events, FramesSent, P.Run, P.Init, S.After, P.NonEmpty;
    var st := After(Init(ssrc0, ssrc1), workers, feed, steps).value;
    RunsBoth(ssrc0, ssrc1, workers, feed, steps);
    SentIsDelivered(ssrc0, ssrc1, workers, feed, steps, 1);
    P.PrefetchRefinesReading(2, workers, feed, PoolActions(steps), st.pool, 1);
    ResultsFit(feed, st.pool.sources[1].fetched);
    if st.inHand.Some? && st.inHand.value.0 == 1 {
      var delivered := st.pool.sources[1].delivered;
      assert delivered[|delivered| - 1] == st.inHand.value.1;
      assert (delivered + st.pool.sources[1].frames)[|delivered| - 1] == st.inHand.value.1;
    }
  }

  /** Sends the frame in hand, if ReadFrame has come back with one. */
  lemma SendFirst(ssrc0: nat, ssrc1: nat, workers: nat, feed: P.Feed, steps: seq<Step>, st: State, fd: int, channels: (byte, byte))
    returns (steps': seq<Step>, st': State)
    requires AudioFits(feed) && Serves(Init(ssrc0, ssrc1), workers, feed, steps, st, fd, channels)
    ensures Serves(Init(ssrc0, ssrc1), workers, feed, steps', st', fd, channels)
    ensures st'.pool == st.pool && (st.pool.loop.Idle? ==> st'.inHand == None)
  {
    if st.inHand.Some? && st.pool.loop.Idle? {
      HandFits(ssrc0, ssrc1, workers, feed, steps);
      SendServes(Init(ssrc0, ssrc1), workers, feed, steps, st, fd, channels, 0);
      steps', st' := steps + [Send(0)], Apply(st, workers, feed, Send(0));
    } else {
      steps', st' := steps, st;
    }
    hide Serves, S.Apply;
  }

  lemma {:induction false} FollowPool(ssrc0: nat, ssrc1: nat, workers: nat, feed: P.Feed, steps: seq<Step>, st: State, fd: int, channels: (byte, byte),
                                      actions: seq<P.Action>, end: P.State) returns (steps': seq<Step>, st': State)
    requires AudioFits(feed) && Serves(Init(ssrc0, ssrc1), workers, feed, steps, st, fd, channels)
    requires P.Run(st.pool, workers, feed, actions, end)
    ensures Serves(Init(ssrc0, ssrc1), workers, feed, steps', st', fd, channels) && st'.pool == end
    decreases |actions|
  {
    hide Serves, AudioFits, P.Apply, S.InRange;
    if actions == [] {
      steps', st' := steps, st;
    } else {
      var a := actions[0];
      var steps1, st1 := SendFirst(ssrc0, ssrc1, workers, feed, steps, st, fd, channels);
      PoolServes(Init(ssrc0, ssrc1), workers, feed, steps1, st1, fd, channels, a);
      steps', st' := FollowPool(ssrc0, ssrc1, workers, feed, steps1 + [Pool(a)], Apply(st1, workers, feed, Pool(a)), fd, channels, actions[1..], end);
    }
  }

  // ----- A client that plays before the first frame -----

  function Requests(fd: int, c0: nat, c1: nat): seq<S.Event> {
    [S.Accept(fd), S.Setup(fd, 0, true, fd, c0), S.Setup(fd, 1, true, fd, c1), S.Play(fd)]
  }

  lemma OneMoreRequest(h: RtpHeader, fd: int, t: nat, events: seq<S.Event>, e: S.Event)
    requires !e.Frame? && !S.SeenBy(h, fd, t, events).Playing?
    ensures S.SeenBy(h, fd, t, events + [e]) == S.NextSeen(S.SeenBy(h, fd, t, events), S.HeaderOf(h, t, events), fd, t, e)
    ensures FramesSeen(h, fd, t, events + [e]) == [] && FramesSent(events + [e], t) == FramesSent(events, t)
  {
    assert (events + [e])[..|events|] == events;
    assert FramesSeen(h, fd, t, events) == [];
    OneMoreSent(events, e, t);
    assert FramesSent(events, t) + [] == FramesSent(events, t);
    hide S.NextSeen, S.HeaderOf;
  }

  lemma RequestsPlay(h: RtpHeader, fd: int, t: nat, c0: nat, c1: nat)
    requires t < 2
    ensures SeesAll(h, fd, t, Requests(fd, c0, c1))
  {
    var e := Requests(fd, c0, c1);
    assert [] + [e[0]] == [e[0]] && [e[0]] + [e[1]] == [e[0], e[1]];
    assert [e[0], e[1]] + [e[2]] == [e[0], e[1], e[2]] && [e[0], e[1], e[2]] + [e[3]] == e;
    OneMoreRequest(h, fd, t, [], e[0]);
    OneMoreRequest(h, fd, t, [e[0]], e[1]);
    OneMoreRequest(h, fd, t, [e[0], e[1]], e[2]);
    OneMoreRequest(h, fd, t, [e[0], e[1], e[2]], e[3]);
    hide FramesSeen, FramesSent, S.SeenBy;
  }

  /** The client's receivers after each of its requests. */
  lemma RequestsSetUp(st: S.State, fd: int, c0: nat, c1: nat) returns (st1: S.State, st2: S.State, st3: S.State, st4: S.State)
    requires S.InRange(st) && st.objects == [] && fd !in st.clients && c0 % 256 != c1 % 256
    ensures var e := Requests(fd, c0, c1);
            && S.Enabled(st, e[0]) && st1 == S.Apply(st, e[0])
            && S.InRange(st1) && S.Enabled(st1, e[1]) && st2 == S.Apply(st1, e[1])
            && S.InRange(st2) && S.Enabled(st2, e[2]) && st3 == S.Apply(st2, e[2])
            && S.InRange(st3) && S.Enabled(st3, e[3]) && st4 == S.Apply(st3, e[3])
    ensures OnChannels(st4, fd, (c0 % 256, c1 % 256))
  {
    var e := Requests(fd, c0, c1);
    st1 := S.Apply(st, e[0]);
    st2 := S.Apply(st1, e[1]);
    st3 := S.Apply(st2, e[2]);
    st4 := S.Apply(st3, e[3]);
  }

  /** The server has handled these requests and nothing else. */
  ghost predicate Handled(start: State, workers: nat, feed: P.Feed, steps: seq<Step>, st: State, events: seq<S.Event>) {
    && After(start, workers, feed, steps) == Some(st) && Events(start, workers, feed, steps) == events
    && st.pool == start.pool && st.inHand == None && S.InRange(st.clients) && S.Shape(st.clients)
  }

  lemma HandleRequest(start: State, workers: nat, feed: P.Feed, steps: seq<Step>, st: State, events: seq<S.Event>, e: S.Event)
    returns (st': State)
    requires Handled(start, workers, feed, steps, st, events) && start.pool.loop.Idle?
    requires S.InRange(st.clients) && !e.Frame? && S.Enabled(st.clients, e)
    ensures Handled(start, workers, feed, steps + [Client(e)], st', events + [e]) && st'.clients == S.Apply(st.clients, e)
  {
    hide After, Events, S.Apply, S.Enabled, S.InRange, S.Shape;
    OneMoreStep(start, workers, feed, steps, Client(e));
    st' := Apply(st, workers, feed, Client(e));
    S.StepKeepsShape(st.clients, e);
    ShapeIsInRange(st'.clients);
  }

  lemma HandleTwo(start: State, workers: nat, feed: P.Feed, steps: seq<Step>, st: State, events: seq<S.Event>, e: S.Event, f: S.Event, mid: S.State)
    returns (st': State)
    requires Handled(start, workers, feed, steps, st, events) && start.pool.loop.Idle?
    requires S.InRange(st.clients) && !e.Frame? && S.Enabled(st.clients, e) && mid == S.Apply(st.clients, e)
    requires S.InRange(mid) && !f.Frame? && S.Enabled(mid, f)
    ensures Handled(start, workers, feed, steps + [Client(e), Client(f)], st', events + [e, f]) && st'.clients == S.Apply(mid, f)
  {
    hide Handled, S.Apply, S.Enabled, S.InRange;
    var st1 := HandleRequest(start, workers, feed, steps, st, events, e);
    st' := HandleRequest(start, workers, feed, steps + [Client(e)], st1, events + [e], f);
    assert steps + [Client(e)] + [Client(f)] == steps + [Client(e), Client(f)];
    assert events + [e] + [f] == events + [e, f];
  }

  lemma ShapeIsInRange(st: S.State)
    requires S.Shape(st)
    ensures S.InRange(st)
  {
  }

  lemma NothingHandled(ssrc0: nat, ssrc1: nat, workers: nat, feed: P.Feed)
    requires ssrc0 < 0x1_0000_0000 && ssrc1 < 0x1_0000_0000
    ensures var start := Init(ssrc0, ssrc1);
            && Handled(start, workers, feed, [], start, []) && start.pool == P.Init(2) && start.pool.loop.Idle?
            && S.InRange(start.clients) && start.clients.objects == [] && start.clients.clients == map[]
  {
  }

  lemma PlaysFirst(ssrc0: nat, ssrc1: nat, workers: nat, feed: P.Feed, fd: int, c0: nat, c1: nat) returns (steps: seq<Step>, st: State)
    requires ssrc0 < 0x1_0000_0000 && ssrc1 < 0x1_0000_0000 && c0 % 256 != c1 % 256
    ensures Serves(Init(ssrc0, ssrc1), workers, feed, steps, st, fd, (c0 % 256, c1 % 256)) && st.pool == P.Init(2)
  {
    hide Handled, Init, S.Apply, S.Enabled, S.InRange, OnChannels, After, Events;
    var start, e := Init(ssrc0, ssrc1), Requests(fd, c0, c1);
    NothingHandled(ssrc0, ssrc1, workers, feed);
    var clients1, clients2, clients3, clients4 := RequestsSetUp(start.clients, fd, c0, c1);
    assert [] + [e[0], e[1]] + [e[2], e[3]] == e;
    var st2 := HandleTwo(start, workers, feed, [], start, [], e[0], e[1], clients1);
    steps := [] + [Client(e[0]), Client(e[1])];
    st := HandleTwo(start, workers, feed, steps, st2, [] + [e[0], e[1]], e[2], e[3], clients3);
    steps := steps + [Client(e[2]), Client(e[3])];
    HandledServes(ssrc0, ssrc1, workers, feed, steps, st, fd, c0, c1);
  }

  lemma HandledServes(ssrc0: nat, ssrc1: nat, workers: nat, feed: P.Feed, steps: seq<Step>, st: State, fd: int, c0: nat, c1: nat)
    requires Handled(Init(ssrc0, ssrc1), workers, feed, steps, st, Requests(fd, c0, c1))
    requires OnChannels(st.clients, fd, (c0 % 256, c1 % 256))
    ensures Serves(Init(ssrc0, ssrc1), workers, feed, steps, st, fd, (c0 % 256, c1 % 256)) && st.pool == P.Init(2)
  {
    P.InitInvariant(2, workers, feed);
    RequestsPlay(S.Init(ssrc0, ssrc1).headers[0], fd, 0, c0, c1);
    RequestsPlay(S.Init(ssrc0, ssrc1).headers[1], fd, 1, c0, c1);
    hide After, Events, SeesAll, P.Invariant, OnChannels, S.Shape, S.InRange, Requests;
  }

  /** What client fd has seen of track t in a run. */
  ghost function FramesSeenIn(ssrc0: nat, ssrc1: nat, workers: nat, feed: P.Feed, steps: seq<Step>, fd: int, t: nat): seq<seq<byte>>
    requires t < 2 && After(Init(ssrc0, ssrc1), workers, feed, steps).Some?
  {
    FramesOf(FramesSeen(S.Init(ssrc0, ssrc1).headers[t], fd, t, Events(Init(ssrc0, ssrc1), workers, feed, steps)))
  }

  /** A run in which a client is sent everything: all that either source has before its eighth empty
      result. */
  lemma EverythingCanReachClient(ssrc0: nat, ssrc1: nat, workers: nat, feed: P.Feed, n0: nat, n1: nat, fd: int, c0: nat, c1: nat)
    returns (steps: seq<Step>)
    requires P.EndsAtEighthEmpty(feed, 0, n0) && P.EndsAtEighthEmpty(feed, 1, n1) && AudioFits(feed)
    requires ssrc0 < 0x1_0000_0000 && ssrc1 < 0x1_0000_0000 && 0 < workers && c0 % 256 != c1 % 256
    ensures Runs(ssrc0, ssrc1, workers, feed, steps)
    ensures NamedChannels(Events(Init(ssrc0, ssrc1), workers, feed, steps), fd, (c0 % 256, c1 % 256))
    ensures FramesSeenIn(ssrc0, ssrc1, workers, feed, steps, fd, 0) == P.NonEmpty(feed, 0, n0)
    ensures FramesSeenIn(ssrc0, ssrc1, workers, feed, steps, fd, 1) == P.NonEmpty(feed, 1, n1)
  {
    hide P.Run, P.Stuck, After, Events, P.Init, P.EndsAtEighthEmpty, P.NonEmpty, AudioFits;
    var actions, end := P.BothCanBeDelivered(workers, feed, n0, n1);
    var steps0, st0 := PlaysFirst(ssrc0, ssrc1, workers, feed, fd, c0, c1);
    var st;
    steps, st := FollowPool(ssrc0, ssrc1, workers, feed, steps0, st0, fd, (c0 % 256, c1 % 256), actions, end);
    SeesDelivered(ssrc0, ssrc1, workers, feed, steps, st, fd, (c0 % 256, c1 % 256), 0);
    SeesDelivered(ssrc0, ssrc1, workers, feed, steps, st, fd, (c0 % 256, c1 % 256), 1);
    RunsBoth(ssrc0, ssrc1, workers, feed, steps);
    ChannelsAreNamed(ssrc0, ssrc1, Events(Init(ssrc0, ssrc1), workers, feed, steps), st.clients, fd, (c0 % 256, c1 % 256));
  }

  lemma SeesDelivered(ssrc0: nat, ssrc1: nat, workers: nat, feed: P.Feed, steps: seq<Step>, st: State, fd: int, channels: (byte, byte), t: nat)
    requires t < 2 && Serves(Init(ssrc0, ssrc1), workers, feed, steps, st, fd, channels) && st.pool.loop == P.Blocked(1)
    ensures |st.pool.sources| == 2
    ensures FramesSeenIn(ssrc0, ssrc1, workers, feed, steps, fd, t) == st.pool.sources[t].delivered
  {
    var events := Events(Init(ssrc0, ssrc1), workers, feed, steps);
    SentIsDelivered(ssrc0, ssrc1, workers, feed, steps, t);
    SeesTheLastFrames(S.Init(ssrc0, ssrc1).headers[t], fd, t, events);
    assert InHand(st, t) == [];
    assert SeesAll(S.Init(ssrc0, ssrc1).headers[t], fd, t, events);
    hide FramesSeen, FramesSent, Events, After, S.SeenBy, OnChannels, S.Shape, P.Invariant;
  }

  // ----- Files -----

  /** The results of a video file and of an AAC file. */
  function FileFeed(file: seq<byte>, frames: seq<A.AdtsFrame>): P.Feed {
    (s: nat, i: nat) => if s == 0 then E.NalAt(Split(file, 0), i) else AE.BodyAt(frames, i)
  }

  lemma VideoEnds(feed: P.Feed, us: seq<Unit>) returns (n: nat)
    requires Dropped(us) < P.CREDITS && forall i: nat :: feed(0, i) == E.NalAt(us, i)
    ensures P.EndsAtEighthEmpty(feed, 0, n) && P.NonEmpty(feed, 0, n) == Kept(us)
  {
    n := |us| + P.CREDITS - Dropped(us);
    hide Kept, Dropped;
    ResultsBehindUnits(feed, 0, us, n);
  }

  lemma FileFeedIsTheFiles(file: seq<byte>, cap: nat, frames: seq<A.AdtsFrame>, audioCap: nat)
    requires 4 <= cap && E.Exact(file, cap) && ReadsBack(frames, audioCap)
    ensures A.AllValid(frames)
    ensures FeedsFile(FileFeed(file, frames), 0, file, cap) && FeedsAudio(FileFeed(file, frames), 1, frames, audioCap)
  {
    hide E.Exact, E.Fetch, AE.Fetch, A.File, A.AllFit, AE.Quiet, AE.BodyAt, Open, Split, E.NalAt;
    FileFeedsUnits(file, cap, FileFeed(file, frames), 0);
    forall i: nat ensures AE.Fetch(Open(A.File(frames), audioCap), i) == A.Frame(FileFeed(file, frames)(1, i)) {
      AE.FramesComeBack(frames, audioCap, i);
    }
  }

  lemma FileFeedEnds(file: seq<byte>, frames: seq<A.AdtsFrame>) returns (n0: nat, n1: nat)
    requires Dropped(Split(file, 0)) < P.CREDITS
    requires A.AllValid(frames) && forall i :: 0 <= i < |frames| ==> |frames[i].body| <= 1398
    ensures var feed := FileFeed(file, frames);
            && AudioFits(feed)
            && P.EndsAtEighthEmpty(feed, 0, n0) && P.NonEmpty(feed, 0, n0) == Kept(Split(file, 0))
            && P.EndsAtEighthEmpty(feed, 1, n1) && P.NonEmpty(feed, 1, n1) == Bodies(frames)
  {
    var feed := FileFeed(file, frames);
    n0 := VideoEnds(feed, Split(file, 0));
    n1 := |frames| + P.CREDITS;
    BodiesEnd(feed, 1, frames);
  }

  /** For every video file that the splitter takes apart exactly and that has fewer than eight empty
      NAL units, and every AAC file of frames that fit, of at most 1398 bytes each, and are quiet
      behind the end: there is one run of the server in which a client is sent both from the
      first frame to the last. (Either file may be empty.) */
  lemma WholeFilesCanReachClient(file: seq<byte>, cap: nat, frames: seq<A.AdtsFrame>, audioCap: nat, ssrc0: nat, ssrc1: nat, workers: nat,
                                 fd: int, c0: nat, c1: nat) returns (steps: seq<Step>)
    requires 4 <= cap && E.Exact(file, cap) && Dropped(Split(file, 0)) < P.CREDITS
    requires ReadsBack(frames, audioCap) && forall i :: 0 <= i < |frames| ==> |frames[i].body| <= 1398
    requires ssrc0 < 0x1_0000_0000 && ssrc1 < 0x1_0000_0000 && 0 < workers && c0 % 256 != c1 % 256
    ensures ServesFile(file, cap, ssrc0, ssrc1, workers, FileFeed(file, frames), steps)
    ensures ServesAudio(frames, audioCap, ssrc0, ssrc1, workers, FileFeed(file, frames), steps)
    ensures NamedChannels(Events(Init(ssrc0, ssrc1), workers, FileFeed(file, frames), steps), fd, (c0 % 256, c1 % 256))
    ensures FramesSeenIn(ssrc0, ssrc1, workers, FileFeed(file, frames), steps, fd, 0) == Kept(Split(file, 0))
    ensures FramesSeenIn(ssrc0, ssrc1, workers, FileFeed(file, frames), steps, fd, 1) == Bodies(frames)
  {
    FileFeedIsTheFiles(file, cap, frames, audioCap);
    var n0, n1 := FileFeedEnds(file, frames);
    steps := EverythingCanReachClient(ssrc0, ssrc1, workers, FileFeed(file, frames), n0, n1, fd, c0, c1);
    hide *;
  }
}
