/** The whole path for sound: from an AAC file to the audio frames of its clients. */
module AudioEndToEnd {
  import opened Bytes
  import opened Rtp
  import opened Reassembly
  import opened Serving
  import opened Ring
  import opened EndToEnd
  import AP = AacPackets
  import A = Adts
  import AE = AdtsEnd
  import P = Prefetch
  import S = Streaming

  // ----- From the file to the sink -----

  /** feed(s, i) is what the i-th call of the AAC reader on this file returns. */
  ghost predicate FeedsAudio(feed: P.Feed, s: nat, frames: seq<A.AdtsFrame>, cap: nat)
    requires 8 <= cap && A.AllValid(frames)
  {
    forall i: nat :: AE.Fetch(Open(A.File(frames), cap), i) == A.Frame(feed(s, i))
  }

  /** A file of frames that all fit and that is quiet behind its end. */
  ghost predicate ReadsBack(frames: seq<A.AdtsFrame>, cap: nat) {
    8 <= cap && A.AllValid(frames) && A.AllFit(frames, 0, cap, |A.File(frames)|) && AE.Quiet(A.File(frames), cap)
  }

  function Bodies(frames: seq<A.AdtsFrame>): (bodies: seq<seq<byte>>)
    ensures |bodies| == |frames| && forall i :: 0 <= i < |bodies| ==> bodies[i] == frames[i].body
  {
    seq(|frames|, i requires 0 <= i < |frames| => frames[i].body)
  }

  lemma FileFeedsBodies(feed: P.Feed, s: nat, frames: seq<A.AdtsFrame>, cap: nat)
    requires ReadsBack(frames, cap) && FeedsAudio(feed, s, frames, cap)
    ensures forall i: nat :: feed(s, i) == AE.BodyAt(frames, i)
  {
    hide AE.Fetch, A.File, A.AllFit, AE.Quiet, AE.BodyAt, Open, A.AllValid;
    forall i: nat ensures feed(s, i) == AE.BodyAt(frames, i) {
      AE.FramesComeBack(frames, cap, i);
      assert AE.Fetch(Open(A.File(frames), cap), i) == A.Frame(feed(s, i));
    }
  }

  /** The results are the bodies, and behind them nothing. */
  lemma {:induction false} ResultsAreBodies(feed: P.Feed, s: nat, frames: seq<A.AdtsFrame>, n: nat)
    requires A.AllValid(frames) && forall i: nat :: feed(s, i) == AE.BodyAt(frames, i)
    ensures P.NonEmpty(feed, s, n) == Bodies(frames)[..Min(n, |frames|)]
    ensures P.Empties(feed, s, n) == n - Min(n, |frames|)
    decreases n
  {
    if n > 0 {
      ResultsAreBodies(feed, s, frames, n - 1);
      if n <= |frames| {
        assert frames[n - 1].Valid() && feed(s, n - 1) == frames[n - 1].body;
        assert Bodies(frames)[..n] == Bodies(frames)[..n - 1] + [frames[n - 1].body];
      }
    }
  }

  /** The source ends eight results behind the last body. */
  lemma BodiesEnd(feed: P.Feed, s: nat, frames: seq<A.AdtsFrame>)
    requires A.AllValid(frames) && forall i: nat :: feed(s, i) == AE.BodyAt(frames, i)
    ensures P.EndsAtEighthEmpty(feed, s, |frames| + P.CREDITS)
    ensures P.NonEmpty(feed, s, |frames| + P.CREDITS) == Bodies(frames)
  {
    ResultsAreBodies(feed, s, frames, |frames| + P.CREDITS);
    assert Bodies(frames)[..|frames|] == Bodies(frames);
  }

  /** The sink has at every moment received the beginning of the bodies, and all of them when the
      server can go no further and is blocked on this source. */
  lemma SinkGetsBodies(frames: seq<A.AdtsFrame>, sources: nat, workers: nat, feed: P.Feed, actions: seq<P.Action>, st: P.State, s: nat)
    requires A.AllValid(frames) && forall i: nat :: feed(s, i) == AE.BodyAt(frames, i)
    requires P.Run(P.Init(sources), workers, feed, actions, st) && s < sources && 0 < workers
    ensures |st.sources| == sources && st.sources[s].delivered <= Bodies(frames)
    ensures P.Stuck(st, workers) && st.loop == P.Blocked(s) ==> st.sources[s].delivered == Bodies(frames)
  {
    P.PrefetchRefinesReading(sources, workers, feed, actions, st, s);
    var n := st.sources[s].fetched;
    ResultsAreBodies(feed, s, frames, n);
    if P.Stuck(st, workers) && st.loop == P.Blocked(s) {
      P.InitInvariant(sources, workers, feed);
      P.RunKeepsInvariant(P.Init(sources), workers, feed, actions, st);
      P.StuckMeansEightEmpties(st, workers, feed, s);
      BodiesEnd(feed, s, frames);
      P.EighthEmptyIsUnique(feed, s, n, |frames| + P.CREDITS);
    }
    hide *;
  }

  // ----- From the file to the client -----

  /** Every run on such a file. */
  ghost predicate ServesAudio(frames: seq<A.AdtsFrame>, cap: nat, ssrc0: nat, ssrc1: nat, workers: nat, feed: P.Feed, steps: seq<Step>) {
    ReadsBack(frames, cap) && FeedsAudio(feed, 1, frames, cap) && Runs(ssrc0, ssrc1, workers, feed, steps)
  }

  /** What has been sent on the audio track is at every moment the beginning of the file's bodies; and
      it is all of them when the server waits for a frame of the audio source and nothing can
      happen any more. */
  lemma AudioIsSent(frames: seq<A.AdtsFrame>, cap: nat, ssrc0: nat, ssrc1: nat, workers: nat, feed: P.Feed, steps: seq<Step>)
    requires ServesAudio(frames, cap, ssrc0, ssrc1, workers, feed, steps)
    ensures var st := After(Init(ssrc0, ssrc1), workers, feed, steps).value;
            var sent := FramesSent(Events(Init(ssrc0, ssrc1), workers, feed, steps), 1);
            && sent <= Bodies(frames)
            && (P.Stuck(st.pool, workers) && st.pool.loop == P.Blocked(1) ==> sent == Bodies(frames))
  {
    var st := After(Init(ssrc0, ssrc1), workers, feed, steps).value;
    RunsBoth(ssrc0, ssrc1, workers, feed, steps);
    SentIsDelivered(ssrc0, ssrc1, workers, feed, steps, 1);
    AllValidFrames(frames, cap);
    FileFeedsBodies(feed, 1, frames, cap);
    SinkGetsBodies(frames, 2, workers, feed, PoolActions(steps), st.pool, 1);
    hide FramesSent, Events, After, Bodies, ReadsBack, FeedsAudio, P.Run, P.Init, P.Stuck, AE.BodyAt, S.After, A.AllValid;
    assert st.pool.loop == P.Blocked(1) ==> InHand(st, 1) == [];
  }

  lemma AllValidFrames(frames: seq<A.AdtsFrame>, cap: nat)
    requires ReadsBack(frames, cap)
    ensures A.AllValid(frames)
  {
  }

  /** What a client that has read these access units has seen of the frames sent: exactly the last
      ones, which are a piece of the file. */
  ghost predicate SeesAudio(units: seq<Option<seq<byte>>>, seen: seq<(seq<byte>, byte)>, sent: seq<seq<byte>>, bodies: seq<seq<byte>>) {
    && |seen| <= |sent| && sent <= bodies
    && FramesOf(seen) == sent[|sent| - |seen|..]
    && AreUnitsOf(units, FramesOf(seen))
  }

  lemma SeenOfAudio(frames: seq<A.AdtsFrame>, cap: nat, ssrc0: nat, ssrc1: nat, workers: nat, feed: P.Feed, steps: seq<Step>,
                    fd: int, units: seq<Option<seq<byte>>>)
    requires ServesAudio(frames, cap, ssrc0, ssrc1, workers, feed, steps)
    requires var events := Events(Init(ssrc0, ssrc1), workers, feed, steps);
             AreUnitsOf(units, NotEmpty(FramesOf(FramesSeen(S.Init(ssrc0, ssrc1).headers[1], fd, 1, events))))
    ensures var events := Events(Init(ssrc0, ssrc1), workers, feed, steps);
            SeesAudio(units, FramesSeen(S.Init(ssrc0, ssrc1).headers[1], fd, 1, events), FramesSent(events, 1), Bodies(frames))
  {
    var events := Events(Init(ssrc0, ssrc1), workers, feed, steps);
    var seen, sent := FramesSeen(S.Init(ssrc0, ssrc1).headers[1], fd, 1, events), FramesSent(events, 1);
    hide Events, FramesSent, FramesSeen, NotEmpty, Bodies, After;
    hide ReadsBack, FeedsAudio, Runs;
    AudioIsSent(frames, cap, ssrc0, ssrc1, workers, feed, steps);
    SeesTheLastFrames(S.Init(ssrc0, ssrc1).headers[1], fd, 1, events);
    AllValidFrames(frames, cap);
    hide *;
    PieceOfBodies(frames, seen, sent, units);
  }

  lemma PieceOfBodies(frames: seq<A.AdtsFrame>, seen: seq<(seq<byte>, byte)>, sent: seq<seq<byte>>, units: seq<Option<seq<byte>>>)
    requires A.AllValid(frames) && |seen| <= |sent| && sent <= Bodies(frames) && FramesOf(seen) == sent[|sent| - |seen|..]
    requires AreUnitsOf(units, NotEmpty(FramesOf(seen)))
    ensures SeesAudio(units, seen, sent, Bodies(frames))
  {
    hide NotEmpty, AreUnitsOf;
    forall i | 0 <= i < |seen| ensures FramesOf(seen)[i] != [] {
      assert FramesOf(seen)[i] == sent[|sent| - |seen| + i] == Bodies(frames)[|sent| - |seen| + i];
      assert frames[|sent| - |seen| + i].Valid();
    }
    NothingIsEmpty(FramesOf(seen));
  }

  /** From the bytes of an AAC file to the audio frames of a TCP client, in every run of the server,
      at every moment, whenever the client sent PLAY and whatever else goes on: reading its
      connection as interleaved frames, parsing the packets of the audio channel and reading
      their AU headers gives exactly the last frames sent, and those are a piece of the file. */
  lemma AudioReachesTcpClient(frames: seq<A.AdtsFrame>, cap: nat, ssrc0: nat, ssrc1: nat, workers: nat, feed: P.Feed, steps: seq<Step>,
                              fd: int, channel: byte)
    requires ServesAudio(frames, cap, ssrc0, ssrc1, workers, feed, steps)
    requires var events := Events(Init(ssrc0, ssrc1), workers, feed, steps);
             S.ReadsOn(fd, 1, channel, events) && !S.ReadsOn(fd, 0, channel, events)
    ensures var st := After(Init(ssrc0, ssrc1), workers, feed, steps).value.clients;
            var events := Events(Init(ssrc0, ssrc1), workers, feed, steps);
            && Demux(st.wires.StreamOf(fd)).Some?
            && SeesAudio(AccessUnits(ParseAll(OnChannel(Demux(st.wires.StreamOf(fd)).value, channel))),
                         FramesSeen(S.Init(ssrc0, ssrc1).headers[1], fd, 1, events), FramesSent(events, 1), Bodies(frames))
  {
    RunsBoth(ssrc0, ssrc1, workers, feed, steps);
    TcpClientRebuildsAudio(ssrc0, ssrc1, Events(Init(ssrc0, ssrc1), workers, feed, steps), fd, channel);
    var st := After(Init(ssrc0, ssrc1), workers, feed, steps).value.clients;
    SeenOfAudio(frames, cap, ssrc0, ssrc1, workers, feed, steps, fd,
                AccessUnits(ParseAll(OnChannel(Demux(st.wires.StreamOf(fd)).value, channel))));
    hide *;
  }

  /** The same for the datagrams that are sent to a UDP client. */
  lemma AudioReachesUdpClient(frames: seq<A.AdtsFrame>, cap: nat, ssrc0: nat, ssrc1: nat, workers: nat, feed: P.Feed, steps: seq<Step>,
                              fd: int, socket: int)
    requires ServesAudio(frames, cap, ssrc0, ssrc1, workers, feed, steps)
    requires S.ReceivesFrom(fd, 1, socket, Events(Init(ssrc0, ssrc1), workers, feed, steps))
    ensures var st := After(Init(ssrc0, ssrc1), workers, feed, steps).value.clients;
            var events := Events(Init(ssrc0, ssrc1), workers, feed, steps);
            SeesAudio(AccessUnits(ParseAll(st.wires.DatagramsOf(socket))),
                      FramesSeen(S.Init(ssrc0, ssrc1).headers[1], fd, 1, events), FramesSent(events, 1), Bodies(frames))
  {
    RunsBoth(ssrc0, ssrc1, workers, feed, steps);
    UdpClientRebuildsAudio(ssrc0, ssrc1, Events(Init(ssrc0, ssrc1), workers, feed, steps), fd, socket);
    var st := After(Init(ssrc0, ssrc1), workers, feed, steps).value.clients;
    SeenOfAudio(frames, cap, ssrc0, ssrc1, workers, feed, steps, fd,
                AccessUnits(ParseAll(st.wires.DatagramsOf(socket))));
    hide *;
  }

  // ----- Frames that are too long -----

  /** Frames that overrun the audio sink's buffer do come out of AAC files: AACMediaSource returns
      every frame of 1399 to 8184 bytes that lies in one block, here alone in its file. */
  lemma LongAacFrameOverruns(body: seq<byte>, cap: nat) returns (f: A.AdtsFrame)
    requires 1398 < |body| && A.HEADER + |body| < 0x2000 && A.HEADER + |body| <= cap
    ensures f.Valid() && f.body == body
    ensures AE.Fetch(Open(A.File([f]), cap), 0) == A.Frame(body)
    ensures forall h :: AP.Send(h, body) == AP.Overrun
  {
    f := A.AdtsFrame(A.AdtsHeader(0, 0, 1, 1, 3, 0, 2, 0, 0, 0, 0, A.HEADER + |body|, 0x7FF, 0), body);
    AloneInFile(f);
    hide A.Print, A.File;
    AE.ShortFileFits([f], 0, cap, |A.File([f])|);
    AE.EndsQuietlyIff([f], cap);
  }

  lemma AloneInFile(f: A.AdtsFrame)
    requires f.Valid()
    ensures A.AllValid([f]) && |A.File([f])| == f.header.aacFrameLength
  {
    assert [f][1..] == [];
    assert A.File([]) == [];
  }
}
