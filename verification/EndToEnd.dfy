/** The whole path: from the bytes of a file to what a client rebuilds of it. */
module EndToEnd {
  import opened Bytes
  import opened Rtp
  import opened AnnexB
  import opened Pipeline
  import opened Reassembly
  import opened Serving
  import opened Ring
  import P = Prefetch
  import S = Streaming
  import E = H264Exact
  import L = H264Long

  /** A run of the server. */
  ghost predicate Runs(ssrc0: nat, ssrc1: nat, workers: nat, feed: P.Feed, steps: seq<Step>) {
    && ssrc0 < 0x1_0000_0000 && ssrc1 < 0x1_0000_0000 && 0 < workers
    && After(Init(ssrc0, ssrc1), workers, feed, steps).Some?
  }

  /** Every run on a video file, of any length, that the splitter takes apart exactly. */
  ghost predicate ServesFile(file: seq<byte>, cap: nat, ssrc0: nat, ssrc1: nat, workers: nat, feed: P.Feed, steps: seq<Step>) {
    && 4 <= cap && E.Exact(file, cap) && FeedsFile(feed, 0, file, cap)
    && Runs(ssrc0, ssrc1, workers, feed, steps)
  }

  /** Files of which that can be said beforehand: those that fit the two arrays, and those of any
      length that keep clear of the boundaries. */
  ghost predicate Readable(file: seq<byte>, cap: nat)
    requires 0 < cap
  {
    |file| + 4 <= 2 * cap || L.Clear(file, cap)
  }

  lemma ReadableIsExact(file: seq<byte>, cap: nat)
    requires 4 <= cap && Readable(file, cap)
    ensures E.Exact(file, cap)
  {
    if |file| + 4 <= 2 * cap {
      E.FitsIsExact(file, cap);
    } else {
      L.ClearIsExact(file, cap);
    }
  }

  /** What has been sent on the video track is at every moment the beginning of the file's non-empty
      NAL units; and when the server waits for a frame of the video source and nothing can happen
      any more, it is all of them if fewer than eight units are empty, otherwise those before
      the eighth empty one. */
  lemma FileIsSent(file: seq<byte>, cap: nat, ssrc0: nat, ssrc1: nat, workers: nat, feed: P.Feed, steps: seq<Step>)
    requires ServesFile(file, cap, ssrc0, ssrc1, workers, feed, steps)
    ensures var st := After(Init(ssrc0, ssrc1), workers, feed, steps).value;
            var sent := FramesSent(Events(Init(ssrc0, ssrc1), workers, feed, steps), 0);
            var us := Split(file, 0);
            && sent <= Kept(us)
            && (P.Stuck(st.pool, workers) && st.pool.loop == P.Blocked(0) ==>
                  && (Dropped(us) < P.CREDITS ==> sent == Kept(us))
                  && (P.CREDITS <= Dropped(us) ==>
                        exists n :: 0 < n <= |us| && Dropped(us[..n]) == P.CREDITS && us[n - 1].nal == [] && sent == Kept(us[..n])))
  {
    var st := After(Init(ssrc0, ssrc1), workers, feed, steps).value;
    RunsBoth(ssrc0, ssrc1, workers, feed, steps);
    SentIsDelivered(ssrc0, ssrc1, workers, feed, steps, 0);
    SinkGetsBeginning(file, cap, 2, workers, feed, PoolActions(steps), st.pool, 0);
    if P.Stuck(st.pool, workers) && st.pool.loop == P.Blocked(0) {
      FileReachesSink(file, cap, 2, workers, feed, PoolActions(steps), st.pool, 0);
      assert InHand(st, 0) == [];
    }
    hide Kept, Split, Dropped, FramesSent, Events, After, P.Run, P.Init, FeedsFile, P.Stuck, S.After;
  }

  /** What a client that has rebuilt r has seen of the frames sent: the last ones, which are a piece
      of the file's NAL units; and r is exactly those frames if and only if all of them are intact. */
  ghost predicate SeesFile(r: Rebuilding, seen: seq<(seq<byte>, byte)>, sent: seq<seq<byte>>, units: seq<seq<byte>>) {
    && |seen| <= |sent| && sent <= units
    && FramesOf(seen) == sent[|sent| - |seen|..]
    && r == ArrivalOf(seen)
    && (r.units == FramesOf(seen) <==> AllIntact(seen))
  }

  lemma SeenOfFile(file: seq<byte>, cap: nat, ssrc0: nat, ssrc1: nat, workers: nat, feed: P.Feed, steps: seq<Step>, fd: int)
    requires ServesFile(file, cap, ssrc0, ssrc1, workers, feed, steps)
    ensures var events := Events(Init(ssrc0, ssrc1), workers, feed, steps);
            var seen := FramesSeen(S.Init(ssrc0, ssrc1).headers[0], fd, 0, events);
            SeesFile(ArrivalOf(seen), seen, FramesSent(events, 0), Kept(Split(file, 0)))
  {
    hide Kept, Split, FramesSent, Events, After, FramesSeen;
    var events := Events(Init(ssrc0, ssrc1), workers, feed, steps);
    var seen, sent := FramesSeen(S.Init(ssrc0, ssrc1).headers[0], fd, 0, events), FramesSent(events, 0);
    FileIsSent(file, cap, ssrc0, ssrc1, workers, feed, steps);
    SeesTheLastFrames(S.Init(ssrc0, ssrc1).headers[0], fd, 0, events);
    KeptIsNotEmpty(Split(file, 0));
    hide *;
    PieceIsSeen(seen, sent, Kept(Split(file, 0)));
  }

  lemma PieceIsSeen(seen: seq<(seq<byte>, byte)>, sent: seq<seq<byte>>, units: seq<seq<byte>>)
    requires |seen| <= |sent| && sent <= units && FramesOf(seen) == sent[|sent| - |seen|..]
    requires forall i :: 0 <= i < |units| ==> units[i] != []
    ensures SeesFile(ArrivalOf(seen), seen, sent, units)
  {
    forall i | 0 <= i < |seen| ensures seen[i].0 != [] {
      assert seen[i].0 == FramesOf(seen)[i] == sent[|sent| - |seen| + i] == units[|sent| - |seen| + i];
    }
    AllArriveIffAllIntact(seen);
  }

  /** From the bytes of a file to the NAL units of a TCP client, in every run of the server, at every
      moment, whenever the client sent PLAY and whatever else goes on: reading its connection as
      interleaved frames, parsing the packets of the video channel and reassembling them gives what
      arrives of the last frames sent, and those are a piece of the file. */
  lemma FileReachesTcpClient(file: seq<byte>, cap: nat, ssrc0: nat, ssrc1: nat, workers: nat, feed: P.Feed, steps: seq<Step>,
                             fd: int, channel: byte)
    requires ServesFile(file, cap, ssrc0, ssrc1, workers, feed, steps)
    requires var events := Events(Init(ssrc0, ssrc1), workers, feed, steps);
             S.ReadsOn(fd, 0, channel, events) && !S.ReadsOn(fd, 1, channel, events)
    ensures var st := After(Init(ssrc0, ssrc1), workers, feed, steps).value.clients;
            var events := Events(Init(ssrc0, ssrc1), workers, feed, steps);
            && Demux(st.wires.StreamOf(fd)).Some?
            && SeesFile(ReceiveAll(NOTHING, ParseAll(OnChannel(Demux(st.wires.StreamOf(fd)).value, channel))),
                        FramesSeen(S.Init(ssrc0, ssrc1).headers[0], fd, 0, events), FramesSent(events, 0), Kept(Split(file, 0)))
  {
    RunsBoth(ssrc0, ssrc1, workers, feed, steps);
    TcpClientRebuildsFrames(ssrc0, ssrc1, Events(Init(ssrc0, ssrc1), workers, feed, steps), fd, channel);
    SeenOfFile(file, cap, ssrc0, ssrc1, workers, feed, steps, fd);
    hide *;
  }

  /** The same for the datagrams that are sent to a UDP client. */
  lemma FileReachesUdpClient(file: seq<byte>, cap: nat, ssrc0: nat, ssrc1: nat, workers: nat, feed: P.Feed, steps: seq<Step>,
                             fd: int, socket: int)
    requires ServesFile(file, cap, ssrc0, ssrc1, workers, feed, steps)
    requires S.ReceivesFrom(fd, 0, socket, Events(Init(ssrc0, ssrc1), workers, feed, steps))
    ensures var st := After(Init(ssrc0, ssrc1), workers, feed, steps).value.clients;
            var events := Events(Init(ssrc0, ssrc1), workers, feed, steps);
            SeesFile(ReceiveAll(NOTHING, ParseAll(st.wires.DatagramsOf(socket))),
                     FramesSeen(S.Init(ssrc0, ssrc1).headers[0], fd, 0, events), FramesSent(events, 0), Kept(Split(file, 0)))
  {
    RunsBoth(ssrc0, ssrc1, workers, feed, steps);
    UdpClientRebuildsFrames(ssrc0, ssrc1, Events(Init(ssrc0, ssrc1), workers, feed, steps), fd, socket);
    SeenOfFile(file, cap, ssrc0, ssrc1, workers, feed, steps, fd);
    hide *;
  }

  /** In particular for every file that fits the two arrays and for every file of any length that
      keeps clear of the boundaries, whichever way the client is sent it. */
  lemma ReadableFileReachesClients(file: seq<byte>, cap: nat, ssrc0: nat, ssrc1: nat, workers: nat, feed: P.Feed, steps: seq<Step>, fd: int)
    requires 4 <= cap && Readable(file, cap) && FeedsFile(feed, 0, file, cap) && Runs(ssrc0, ssrc1, workers, feed, steps)
    ensures ServesFile(file, cap, ssrc0, ssrc1, workers, feed, steps)
    ensures var st := After(Init(ssrc0, ssrc1), workers, feed, steps).value.clients;
            var events := Events(Init(ssrc0, ssrc1), workers, feed, steps);
            var seen, sent := FramesSeen(S.Init(ssrc0, ssrc1).headers[0], fd, 0, events), FramesSent(events, 0);
            && (forall channel: byte :: S.ReadsOn(fd, 0, channel, events) && !S.ReadsOn(fd, 1, channel, events) ==>
                  && Demux(st.wires.StreamOf(fd)).Some?
                  && SeesFile(ReceiveAll(NOTHING, ParseAll(OnChannel(Demux(st.wires.StreamOf(fd)).value, channel))),
                              seen, sent, Kept(Split(file, 0))))
            && (forall socket: int :: S.ReceivesFrom(fd, 0, socket, events) ==>
                  SeesFile(ReceiveAll(NOTHING, ParseAll(st.wires.DatagramsOf(socket))), seen, sent, Kept(Split(file, 0))))
  {
    ReadableIsExact(file, cap);
    var st := After(Init(ssrc0, ssrc1), workers, feed, steps).value.clients;
    assert ServesFile(file, cap, ssrc0, ssrc1, workers, feed, steps);
    hide ServesFile, E.Exact, FeedsFile, Runs, After, Events, FramesSeen, FramesSent, SeesFile;
    hide Kept, Split, S.ReadsOn, S.ReceivesFrom, Demux, ReceiveAll, ParseAll, OnChannel;
    var events := Events(Init(ssrc0, ssrc1), workers, feed, steps);
    forall channel: byte | S.ReadsOn(fd, 0, channel, events) && !S.ReadsOn(fd, 1, channel, events)
      ensures Demux(st.wires.StreamOf(fd)).Some?
      ensures SeesFile(ReceiveAll(NOTHING, ParseAll(OnChannel(Demux(st.wires.StreamOf(fd)).value, channel))),
                       FramesSeen(S.Init(ssrc0, ssrc1).headers[0], fd, 0, events), FramesSent(events, 0), Kept(Split(file, 0)))
    {
      FileReachesTcpClient(file, cap, ssrc0, ssrc1, workers, feed, steps, fd, channel);
    }
    forall socket: int | S.ReceivesFrom(fd, 0, socket, events)
      ensures SeesFile(ReceiveAll(NOTHING, ParseAll(st.wires.DatagramsOf(socket))),
                       FramesSeen(S.Init(ssrc0, ssrc1).headers[0], fd, 0, events), FramesSent(events, 0), Kept(Split(file, 0)))
    {
      FileReachesUdpClient(file, cap, ssrc0, ssrc1, workers, feed, steps, fd, socket);
    }
  }
}
