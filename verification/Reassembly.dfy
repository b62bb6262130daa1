/** What a client makes of the video packets it is sent: the receiver of RFC 6184 over a whole
    stream, from the bytes on the connection to NAL units. */
module Reassembly {
  import opened Bytes
  import opened Rtp
  import opened Delivery
  import opened H264Packets
  import A = AacPackets
  import S = Streaming
  import D = Datagrams

  /** The NAL units rebuilt so far and the one whose fragments are still coming. */
  datatype Rebuilding = Rebuilding(units: seq<seq<byte>>, unfinished: Option<seq<byte>>)

  const NOTHING: Rebuilding := Rebuilding([], None)

  /** One packet: a NAL unit by itself (section 5.6 of RFC 6184), or a fragment (section 5.8), which
      begins a unit, continues it or ends it. Fragments whose beginning is missing are dropped. */
  function Receive(r: Rebuilding, payload: seq<byte>): Rebuilding {
    if 0 < |payload| && 1 <= payload[0] % 32 <= 23 then Rebuilding(r.units + [payload], None)
    else if 2 < |payload| && payload[0] % 32 == 28 then
      var begins, ends := payload[1] / 128 == 1, payload[1] / 64 % 2 == 1;
      var unit :=
        if begins then Some([payload[0] / 32 * 32 + payload[1] % 32] + payload[2..])
        else if r.unfinished.Some? then Some(r.unfinished.value + payload[2..])
        else None;
      if unit.Some? && ends then Rebuilding(r.units + [unit.value], None) else Rebuilding(r.units, unit)
    else r
  }

  function ReceiveAll(r: Rebuilding, ps: seq<Packet>): Rebuilding {
    if ps == [] then r else Receive(ReceiveAll(r, ps[..|ps| - 1]), ps[|ps| - 1].payload)
  }

  lemma {:induction false} ReceiveAppend(r: Rebuilding, ps: seq<Packet>, qs: seq<Packet>)
    ensures ReceiveAll(r, ps + qs) == ReceiveAll(ReceiveAll(r, ps), qs)
    decreases |qs|
  {
    hide Receive;
    if qs == [] {
      assert ps + qs == ps;
    } else {
      ReceiveAppend(r, ps, qs[..|qs| - 1]);
      assert (ps + qs)[..|ps + qs| - 1] == ps + qs[..|qs| - 1];
    }
  }

  /** What a receiver makes of a frame on the way, as written: a short one is one packet, a longer
      one arrives with its F bit cleared and with the byte behind it. */
  function Arrival(r: Rebuilding, frame: seq<byte>, after: byte): Rebuilding {
    if frame == [] then r
    else if |frame| <= RTP_MAX_PKT_SIZE then Receive(r, frame)
    else Rebuilding(r.units + [[frame[0] % 128] + frame[1..] + [after]], None)
  }

  // ----- One frame -----

  lemma FirstFragment(r: Rebuilding, h: RtpHeader, source: seq<byte>, n: nat)
    requires RTP_MAX_PKT_SIZE < n && |source| == n + 1
    ensures Receive(r, Fragment(h, source, n, 0).payload)
         == Rebuilding(r.units, Some([source[0] % 128] + source[1..1 + RTP_MAX_PKT_SIZE]))
  {
    var payload := Fragment(h, source, n, 0).payload;
    FuHeaderBits(source[0], n, 0);
    assert payload[2..] == source[1..1 + RTP_MAX_PKT_SIZE];
    assert payload[0] == FuIndicator(source[0]) && payload[1] == FuHeader(source[0], n, 0);
    hide FuHeader, FuIndicator, Fragment, FragmentCount;
    assert payload[0] / 32 * 32 + payload[1] % 32 == source[0] % 128;
  }

  lemma NextFragment(r: Rebuilding, h: RtpHeader, source: seq<byte>, n: nat, k: nat)
    requires RTP_MAX_PKT_SIZE < n && |source| == n + 1 && 0 < k < FragmentCount(n) && r.unfinished.Some?
    ensures var pos := 1 + k * RTP_MAX_PKT_SIZE;
            var unit := r.unfinished.value + source[pos..Min(pos + RTP_MAX_PKT_SIZE, n + 1)];
            Receive(r, Fragment(h, source, n, k).payload)
            == if k == FragmentCount(n) - 1 then Rebuilding(r.units + [unit], None) else Rebuilding(r.units, Some(unit))
  {
    var payload := Fragment(h, source, n, k).payload;
    var pos := 1 + k * RTP_MAX_PKT_SIZE;
    FuHeaderBits(source[0], n, k);
    assert payload[2..] == source[pos..Min(pos + RTP_MAX_PKT_SIZE, n + 1)];
    hide FuHeader, FuIndicator, Fragment;
  }

  lemma {:induction false} SomeFragments(r: Rebuilding, h: RtpHeader, source: seq<byte>, n: nat, k: nat)
    requires RTP_MAX_PKT_SIZE < n && |source| == n + 1 && 1 <= k <= FragmentCount(n)
    ensures var unit := [source[0] % 128] + source[1..Min(1 + k * RTP_MAX_PKT_SIZE, n + 1)];
            ReceiveAll(r, Fragments(h, source, n)[..k])
            == if k == FragmentCount(n) then Rebuilding(r.units + [unit], None) else Rebuilding(r.units, Some(unit))
    decreases k
  {
    hide Receive, Fragment;
    var ps := Fragments(h, source, n);
    var init := ReceiveAll(r, ps[..k - 1]);
    assert ps[..k][..k - 1] == ps[..k - 1] && ps[k - 1] == Fragment(h, source, n, k - 1);
    if k == 1 {
      assert ps[..0] == [];
      FirstFragment(r, h, source, n);
    } else {
      SomeFragments(r, h, source, n, k - 1);
      NextFragment(init, h, source, n, k - 1);
      var pos := 1 + (k - 1) * RTP_MAX_PKT_SIZE;
      hide Fragments, FragmentCount, ReceiveAll;
      Adjacent(source, 1, pos, Min(pos + RTP_MAX_PKT_SIZE, n + 1));
      Behind(source[0] % 128, source[1..pos], source[pos..Min(pos + RTP_MAX_PKT_SIZE, n + 1)]);
    }
  }

  lemma Behind(b: byte, s: seq<byte>, t: seq<byte>)
    ensures [b] + s + t == [b] + (s + t)
  {
  }

  /** Whatever has come before, a receiver of a frame's packets makes of them what arrives of the
      frame. */
  lemma FrameIsReceived(r: Rebuilding, h: RtpHeader, frame: seq<byte>, after: byte)
    ensures ReceiveAll(r, PacketsOf(h, frame, after)) == Arrival(r, frame, after)
  {
    if 0 < |frame| <= RTP_MAX_PKT_SIZE {
      assert [Packet(h, frame)][..0] == [];
    } else if RTP_MAX_PKT_SIZE < |frame| {
      LongFrameIsReceived(r, h, frame, after);
    }
  }

  lemma LongFrameIsReceived(r: Rebuilding, h: RtpHeader, frame: seq<byte>, after: byte)
    requires RTP_MAX_PKT_SIZE < |frame|
    ensures ReceiveAll(r, Fragments(h, frame + [after], |frame|))
         == Rebuilding(r.units + [[frame[0] % 128] + frame[1..] + [after]], None)
  {
    hide Receive, Fragments, FragmentCount, ReceiveAll;
    var source, n := frame + [after], |frame|;
    var ps := Fragments(h, source, n);
    assert |ps| == FragmentCount(n);
    AtLeastOneFragment(n);
    SomeFragments(r, h, source, n, |ps|);
    assert ps[..|ps|] == ps;
    assert source[1..n + 1] == frame[1..] + [after];
    Behind(frame[0] % 128, frame[1..], [after]);
  }

  lemma AtLeastOneFragment(n: nat)
    requires RTP_MAX_PKT_SIZE < n
    ensures 1 <= FragmentCount(n) && n <= FragmentCount(n) * RTP_MAX_PKT_SIZE
  {
  }

  // ----- Everything a client is sent -----

  /** The frames of track t since client fd last sent PLAY, while it plays. */
  function FramesSeen(h: RtpHeader, fd: int, t: nat, events: seq<S.Event>): seq<Input> {
    if events == [] || !S.SeenBy(h, fd, t, events).Playing? then [] else
      var init := events[..|events| - 1];
      match events[|events| - 1]
      case Frame(track, frame, after) => FramesSeen(h, fd, t, init) + if track == t then [(frame, after)] else []
      case _ => FramesSeen(h, fd, t, init)
  }

  /** What a receiver makes of a list of frames. */
  function ArrivalOf(frames: seq<Input>): Rebuilding {
    if frames == [] then NOTHING else
      var last := frames[|frames| - 1];
      Arrival(ArrivalOf(frames[..|frames| - 1]), last.0, last.1)
  }

  /** A client that reassembles all it has been sent on the video track has what arrives of the
      frames since its PLAY, in order. */
  lemma {:induction false} ClientRebuildsFrames(h: RtpHeader, fd: int, events: seq<S.Event>)
    requires S.SeenBy(h, fd, 0, events).Playing?
    ensures ReceiveAll(NOTHING, S.SeenBy(h, fd, 0, events).packets) == ArrivalOf(FramesSeen(h, fd, 0, events))
    decreases |events|
  {
    hide Receive, PacketsOf, Arrival;
    var init, e := events[..|events| - 1], events[|events| - 1];
    var before := S.SeenBy(h, fd, 0, init);
    if before.Playing? {
      ClientRebuildsFrames(h, fd, init);
      assert FramesSeen(h, fd, 0, init) + [] == FramesSeen(h, fd, 0, init);
      if e.Frame? && e.track == 0 {
        var g := S.HeaderOf(h, 0, init);
        ReceiveAppend(NOTHING, before.packets, PacketsOf(g, e.frame, e.after));
        FrameIsReceived(ReceiveAll(NOTHING, before.packets), g, e.frame, e.after);
        OneMoreArrival(FramesSeen(h, fd, 0, init), (e.frame, e.after));
      }
    } else {
      assert S.SeenBy(h, fd, 0, events).packets == [];
    }
  }

  lemma OneMoreArrival(frames: seq<Input>, x: Input)
    ensures ArrivalOf(frames + [x]) == Arrival(ArrivalOf(frames), x.0, x.1)
  {
    assert (frames + [x])[..|frames|] == frames;
  }

  /** The frames of a list of inputs, without the bytes behind them. */
  function FramesOf(frames: seq<Input>): (fs: seq<seq<byte>>)
    ensures |fs| == |frames| && forall i :: 0 <= i < |fs| ==> fs[i] == frames[i].0
  {
    seq(|frames|, i requires 0 <= i < |frames| => frames[i].0)
  }

  ghost predicate AllIntact(frames: seq<Input>) {
    forall i :: 0 <= i < |frames| ==> IsIntact(frames[i].0)
  }

  /** A frame adds one unit at most. When nothing is unfinished and it adds one, nothing is unfinished
      afterwards, and the unit is the frame itself exactly if the frame is intact. */
  lemma OneArrival(r: Rebuilding, frame: seq<byte>, after: byte)
    requires frame != []
    ensures var r' := Arrival(r, frame, after);
            && r.units <= r'.units && |r'.units| <= |r.units| + 1
            && (r.unfinished == None && |r'.units| == |r.units| + 1 ==>
                  r'.unfinished == None && (r'.units[|r.units|] == frame <==> IsIntact(frame)))
            && (r.unfinished == None && IsIntact(frame) ==> r' == Rebuilding(r.units + [frame], None))
  {
    if r.unfinished == None && !IsIntact(frame) && |Arrival(r, frame, after).units| == |r.units| + 1 {
      var unit := Arrival(r, frame, after).units[|r.units|];
      if RTP_MAX_PKT_SIZE < |frame| {
        assert unit == [frame[0] % 128] + frame[1..] + [after];
      } else {
        assert unit == [frame[0] / 32 * 32 + frame[1] % 32] + frame[2..];
      }
    }
  }

  lemma {:induction false} UnitsAtMostFrames(frames: seq<Input>)
    requires forall i :: 0 <= i < |frames| ==> frames[i].0 != []
    ensures |ArrivalOf(frames).units| <= |frames|
    ensures |ArrivalOf(frames).units| == |frames| ==> ArrivalOf(frames).unfinished == None
    decreases |frames|
  {
    hide Arrival;
    if frames != [] {
      var init, last := frames[..|frames| - 1], frames[|frames| - 1];
      UnitsAtMostFrames(init);
      OneArrival(ArrivalOf(init), last.0, last.1);
    }
  }

  /** A client ends up with exactly the frames sent, and nothing unfinished, if and only if every one
      of them is intact. */
  lemma {:induction false} AllArriveIffAllIntact(frames: seq<Input>)
    requires forall i :: 0 <= i < |frames| ==> frames[i].0 != []
    ensures ArrivalOf(frames).units == FramesOf(frames) <==> AllIntact(frames)
    ensures AllIntact(frames) ==> ArrivalOf(frames) == Rebuilding(FramesOf(frames), None)
    decreases |frames|
  {
    if frames != [] {
      var init, last := frames[..|frames| - 1], frames[|frames| - 1];
      AllArriveIffAllIntact(init);
      UnitsAtMostFrames(init);
      OneArrival(ArrivalOf(init), last.0, last.1);
      assert FramesOf(frames) == FramesOf(init) + [last.0];
      assert AllIntact(frames) <==> AllIntact(init) && IsIntact(last.0);
      hide Arrival, IsIntact, AllIntact, FramesOf;
      if ArrivalOf(frames).units == FramesOf(frames) {
        assert ArrivalOf(init).units == ArrivalOf(frames).units[..|init|] == FramesOf(init);
      }
    }
  }

  // ----- From the bytes on the connection -----

  function ParseAll(bs: seq<seq<byte>>): seq<Packet> {
    if bs == [] then [] else
      var last := bs[|bs| - 1];
      ParseAll(bs[..|bs| - 1]) + if RTP_HEADER_SIZE <= |last| then [ParsePacket(last)] else []
  }

  lemma {:induction false} ParseInvertsWireAll(ps: seq<Packet>)
    requires AllValid(ps)
    ensures ParseAll(WireAll(ps)) == ps
    decreases |ps|
  {
    if ps != [] {
      hide ParsePacket, WirePacket;
      var init, last := ps[..|ps| - 1], ps[|ps| - 1];
      ParseInvertsWireAll(init);
      ParseInvertsWire(last);
      var bs, w := WireAll(ps), WirePacket(last);
      assert bs == WireAll(init) + [w];
      assert bs[..|bs| - 1] == WireAll(init) && bs[|bs| - 1] == w;
      assert init + [last] == ps;
    }
  }

  /** From the bytes a TCP client reads to NAL units: de-interleaving its connection, parsing the
      packets of the video channel and reassembling gives what arrives of every frame since PLAY. */
  lemma TcpClientRebuildsFrames(ssrc0: nat, ssrc1: nat, events: seq<S.Event>, fd: int, channel: byte)
    requires ssrc0 < 0x1_0000_0000 && ssrc1 < 0x1_0000_0000
    requires S.After(S.Init(ssrc0, ssrc1), events).Some?
    requires S.ReadsOn(fd, 0, channel, events) && !S.ReadsOn(fd, 1, channel, events)
    ensures var st, h := S.After(S.Init(ssrc0, ssrc1), events).value, S.Init(ssrc0, ssrc1).headers[0];
            && Demux(st.wires.StreamOf(fd)).Some?
            && ReceiveAll(NOTHING, ParseAll(OnChannel(Demux(st.wires.StreamOf(fd)).value, channel)))
            == ArrivalOf(FramesSeen(h, fd, 0, events))
  {
    hide S.ReadsOn, S.After;
    S.ClientReadsItsTracks(ssrc0, ssrc1, events, fd, 0, channel);
    SeenIsRebuilt(S.Init(ssrc0, ssrc1).headers[0], fd, events);
    hide *;
  }

  /** From the datagrams a UDP client is sent to NAL units. */
  lemma UdpClientRebuildsFrames(ssrc0: nat, ssrc1: nat, events: seq<S.Event>, fd: int, socket: int)
    requires ssrc0 < 0x1_0000_0000 && ssrc1 < 0x1_0000_0000
    requires S.After(S.Init(ssrc0, ssrc1), events).Some? && S.ReceivesFrom(fd, 0, socket, events)
    ensures var st, h := S.After(S.Init(ssrc0, ssrc1), events).value, S.Init(ssrc0, ssrc1).headers[0];
            ReceiveAll(NOTHING, ParseAll(st.wires.DatagramsOf(socket)))
            == ArrivalOf(FramesSeen(h, fd, 0, events))
  {
    hide S.ReceivesFrom, S.After;
    D.ClientIsSentItsTrack(ssrc0, ssrc1, events, fd, 0, socket);
    SeenIsRebuilt(S.Init(ssrc0, ssrc1).headers[0], fd, events);
    hide *;
  }

  lemma SeenIsRebuilt(h: RtpHeader, fd: int, events: seq<S.Event>)
    requires S.SeenBy(h, fd, 0, events).Playing? ==> AllValid(S.SeenBy(h, fd, 0, events).packets)
    ensures ReceiveAll(NOTHING, ParseAll(S.SeenOnWire(S.SeenBy(h, fd, 0, events))))
         == ArrivalOf(FramesSeen(h, fd, 0, events))
  {
    var seen := S.SeenBy(h, fd, 0, events);
    if seen.Playing? {
      ParseInvertsWireAll(seen.packets);
      ClientRebuildsFrames(h, fd, events);
    }
  }

  // ----- Audio -----

  /** The frames that are not empty: nothing is sent for an empty one. */
  function NotEmpty(frames: seq<seq<byte>>): seq<seq<byte>> {
    if frames == [] then [] else
      var last := frames[|frames| - 1];
      NotEmpty(frames[..|frames| - 1]) + if last == [] then [] else [last]
  }

  lemma OneMoreNotEmpty(frames: seq<seq<byte>>, frame: seq<byte>)
    ensures NotEmpty(frames + [frame]) == NotEmpty(frames) + if frame == [] then [] else [frame]
  {
    assert (frames + [frame])[..|frames|] == frames;
  }

  lemma {:induction false} NothingIsEmpty(frames: seq<seq<byte>>)
    requires forall i :: 0 <= i < |frames| ==> frames[i] != []
    ensures NotEmpty(frames) == frames
    decreases |frames|
  {
    if frames != [] {
      NothingIsEmpty(frames[..|frames| - 1]);
    }
  }

  /** The access units of a list of packets; None for a packet that is not one. */
  function AccessUnits(ps: seq<Packet>): seq<Option<seq<byte>>> {
    if ps == [] then [] else AccessUnits(ps[..|ps| - 1]) + [A.AccessUnit(ps[|ps| - 1].payload)]
  }

  lemma OneMoreAccessUnit(ps: seq<Packet>, p: Packet)
    ensures AccessUnits(ps + [p]) == AccessUnits(ps) + [A.AccessUnit(p.payload)]
  {
    assert (ps + [p])[..|ps|] == ps;
  }

  /** No audio frame overruns the sink's buffer. */
  ghost predicate AllAudioFits(events: seq<S.Event>) {
    forall i :: 0 <= i < |events| && events[i].Frame? && events[i].track == 1 ==> !A.Overruns(events[i].frame)
  }

  /** In a run none does: runs end where one would. */
  lemma {:induction false} RunsFit(st: S.State, events: seq<S.Event>)
    requires S.After(st, events).Some?
    ensures AllAudioFits(events)
    decreases |events|
  {
    if events != [] {
      hide S.InRange, S.Apply;
      RunsFit(st, events[..|events| - 1]);
    }
  }

  /** Unit by unit the frames. */
  ghost predicate AreUnitsOf(units: seq<Option<seq<byte>>>, frames: seq<seq<byte>>) {
    units == seq(|frames|, i requires 0 <= i < |frames| => Some(frames[i]))
  }

  lemma UnitOfFrame(h: RtpHeader, frame: seq<byte>)
    requires !A.Overruns(frame)
    ensures A.AccessUnit(A.AacPacket(h, frame).payload) == Some(frame)
  {
    A.SizeFieldHoldsIff(h, frame);
    hide A.AccessUnit, A.AacPacket;
  }

  /** The packets of one more frame hold one more unit, or none if the frame is empty. */
  lemma OneMoreFrame(ps: seq<Packet>, frames: seq<seq<byte>>, h: RtpHeader, frame: seq<byte>, after: byte)
    requires AreUnitsOf(AccessUnits(ps), NotEmpty(frames)) && !A.Overruns(frame)
    ensures AreUnitsOf(AccessUnits(ps + S.FramePackets(1, h, frame, after)), NotEmpty(frames + [frame]))
  {
    hide A.AccessUnit, A.AacPacket, A.Overruns, AccessUnits, NotEmpty;
    OneMoreNotEmpty(frames, frame);
    assert ps + [] == ps && NotEmpty(frames) + [] == NotEmpty(frames);
    if frame != [] {
      UnitOfFrame(h, frame);
      OneMoreAccessUnit(ps, A.AacPacket(h, frame));
    }
  }

  lemma OneMoreFrameOf(frames: seq<Input>, x: Input)
    ensures FramesOf(frames + [x]) == FramesOf(frames) + [x.0]
  {
  }

  /** A client that reads the AU headers of all it has been sent on the audio track has exactly
      the frames since its PLAY. */
  lemma {:induction false} ClientRebuildsAudio(h: RtpHeader, fd: int, events: seq<S.Event>)
    requires AllAudioFits(events) && S.SeenBy(h, fd, 1, events).Playing?
    ensures AreUnitsOf(AccessUnits(S.SeenBy(h, fd, 1, events).packets), NotEmpty(FramesOf(FramesSeen(h, fd, 1, events))))
    decreases |events|
  {
    hide AreUnitsOf, AccessUnits, S.FramePackets, NotEmpty, FramesOf;
    var init, e := events[..|events| - 1], events[|events| - 1];
    var before := S.SeenBy(h, fd, 1, init);
    if before.Playing? {
      ClientRebuildsAudio(h, fd, init);
      assert FramesSeen(h, fd, 1, init) + [] == FramesSeen(h, fd, 1, init);
      if e.Frame? && e.track == 1 {
        var frames := FramesSeen(h, fd, 1, init);
        OneMoreFrame(before.packets, FramesOf(frames), S.HeaderOf(h, 1, init), e.frame, e.after);
        OneMoreFrameOf(frames, (e.frame, e.after));
      }
    } else {
      assert S.SeenBy(h, fd, 1, events).packets == [];
      NoUnits();
    }
  }

  lemma NoUnits()
    ensures AreUnitsOf(AccessUnits([]), NotEmpty(FramesOf([])))
  {
  }

  lemma AudioIsRebuilt(h: RtpHeader, fd: int, events: seq<S.Event>)
    requires AllAudioFits(events)
    requires S.SeenBy(h, fd, 1, events).Playing? ==> AllValid(S.SeenBy(h, fd, 1, events).packets)
    ensures AreUnitsOf(AccessUnits(ParseAll(S.SeenOnWire(S.SeenBy(h, fd, 1, events)))),
                       NotEmpty(FramesOf(FramesSeen(h, fd, 1, events))))
  {
    var seen := S.SeenBy(h, fd, 1, events);
    if seen.Playing? {
      ParseInvertsWireAll(seen.packets);
      ClientRebuildsAudio(h, fd, events);
    } else {
      NoUnits();
    }
  }

  /** From the bytes a TCP client reads to audio frames: de-interleaving its connection, parsing the
      packets of the audio channel and reading their AU headers gives every frame since PLAY. */
  lemma TcpClientRebuildsAudio(ssrc0: nat, ssrc1: nat, events: seq<S.Event>, fd: int, channel: byte)
    requires ssrc0 < 0x1_0000_0000 && ssrc1 < 0x1_0000_0000
    requires S.After(S.Init(ssrc0, ssrc1), events).Some?
    requires S.ReadsOn(fd, 1, channel, events) && !S.ReadsOn(fd, 0, channel, events)
    ensures var st, h := S.After(S.Init(ssrc0, ssrc1), events).value, S.Init(ssrc0, ssrc1).headers[1];
            && Demux(st.wires.StreamOf(fd)).Some?
            && AreUnitsOf(AccessUnits(ParseAll(OnChannel(Demux(st.wires.StreamOf(fd)).value, channel))),
                          NotEmpty(FramesOf(FramesSeen(h, fd, 1, events))))
  {
    hide S.ReadsOn, S.After;
    S.ClientReadsItsTracks(ssrc0, ssrc1, events, fd, 1, channel);
    RunsFit(S.Init(ssrc0, ssrc1), events);
    AudioIsRebuilt(S.Init(ssrc0, ssrc1).headers[1], fd, events);
    hide *;
  }

  /** From the datagrams a UDP client is sent to audio frames. */
  lemma UdpClientRebuildsAudio(ssrc0: nat, ssrc1: nat, events: seq<S.Event>, fd: int, socket: int)
    requires ssrc0 < 0x1_0000_0000 && ssrc1 < 0x1_0000_0000
    requires S.After(S.Init(ssrc0, ssrc1), events).Some? && S.ReceivesFrom(fd, 1, socket, events)
    ensures var st, h := S.After(S.Init(ssrc0, ssrc1), events).value, S.Init(ssrc0, ssrc1).headers[1];
            AreUnitsOf(AccessUnits(ParseAll(st.wires.DatagramsOf(socket))),
                       NotEmpty(FramesOf(FramesSeen(h, fd, 1, events))))
  {
    hide S.ReceivesFrom, S.After;
    D.ClientIsSentItsTrack(ssrc0, ssrc1, events, fd, 1, socket);
    RunsFit(S.Init(ssrc0, ssrc1), events);
    AudioIsRebuilt(S.Init(ssrc0, ssrc1).headers[1], fd, events);
    hide *;
  }
}
