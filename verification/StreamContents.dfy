/**
 What the packets of a client carry, over whole runs of the machine in module Streaming: the
 fixed fields of their headers, the clock, and nothing at all before PLAY or after closing.
 */
module StreamContents {
  import opened Bytes
  import opened Bits
  import opened Rtp
  import opened Delivery
  import opened Streaming
  import H = H264Packets
  import A = AacPackets

  // ----- Fixed fields -----

  /** Version 2, payload type 96 for video and 97 for audio, the sink's ssrc, all flags zero. */
  predicate CarriesTrack(h: RtpHeader, t: nat, ssrc: nat) {
    && h.version == 2 && h.payloadType == 96 + t && h.ssrc == ssrc
    && h.marker == 0 && h.padding == 0 && h.extension == 0 && h.csrcLen == 0
  }

  lemma HeaderKeepsTrack(t: nat, h: RtpHeader, frame: seq<byte>, after: byte, ssrc: nat)
    requires h.Valid() && CarriesTrack(h, t, ssrc)
    ensures HeaderAfter(t, h, frame).Valid() && CarriesTrack(HeaderAfter(t, h, frame), t, ssrc)
    ensures forall k :: 0 <= k < |FramePackets(t, h, frame, after)| ==> CarriesTrack(FramePackets(t, h, frame, after)[k].header, t, ssrc)
  {
    FrameHeaders(t, h, frame, after);
    hide H.PacketsOf;
  }

  /** In every run, whenever a client plays: every packet it is sent on a track carries that track's
      payload type and ssrc, version 2 and no flags. */
  lemma {:induction false} PacketsCarryTheirTrack(ssrc0: nat, ssrc1: nat, events: seq<Event>, fd: int, t: nat)
    requires ssrc0 < 0x1_0000_0000 && ssrc1 < 0x1_0000_0000 && t < 2
    ensures var h, ssrc := Init(ssrc0, ssrc1).headers[t], if t == 0 then ssrc0 else ssrc1;
            && HeaderOf(h, t, events).Valid() && CarriesTrack(HeaderOf(h, t, events), t, ssrc)
            && (SeenBy(h, fd, t, events).Playing? ==>
                  forall k :: 0 <= k < |SeenBy(h, fd, t, events).packets| ==>
                    CarriesTrack(SeenBy(h, fd, t, events).packets[k].header, t, ssrc))
    decreases |events|
  {
    if events != [] {
      var h, ssrc := Init(ssrc0, ssrc1).headers[t], if t == 0 then ssrc0 else ssrc1;
      var init, e := events[..|events| - 1], events[|events| - 1];
      PacketsCarryTheirTrack(ssrc0, ssrc1, init, fd, t);
      hide CarriesTrack, FramePackets, HeaderAfter;
      if e.Frame? && e.track == t {
        HeaderKeepsTrack(t, HeaderOf(h, t, init), e.frame, e.after, ssrc);
      }
    }
  }

  /** The twelve bytes in front of a packet's payload. */
  lemma BytesOfHeader(p: Packet, t: nat, ssrc: nat)
    requires p.header.Valid() && t < 2 && CarriesTrack(p.header, t, ssrc)
    ensures WirePacket(p)
         == [0x80, 96 + t, p.header.seqNo / 256, p.header.seqNo % 256,
             p.header.timestamp / 0x100_0000, p.header.timestamp / 0x1_0000 % 256, p.header.timestamp / 256 % 256, p.header.timestamp % 256,
             ssrc / 0x100_0000, ssrc / 0x1_0000 % 256, ssrc / 256 % 256, ssrc % 256] + p.payload
  {
    hide Htons, Htonl, Le16, Le32;
    ThreeDivisions(p.header.timestamp);
    ThreeDivisions(ssrc);
  }

  lemma ThreeDivisions(n: nat)
    ensures n / 256 / 256 / 256 == n / 0x100_0000 && n / 256 / 256 == n / 0x1_0000
  {
  }

  // ----- The clock and the numbers -----

  /** How far a frame moves the clock of its track. */
  function ClockStep(t: nat, frame: seq<byte>): nat {
    if frame == [] then 0
    else if t == 1 then 1024
    else if |frame| <= 1400 && (And(frame[0], 0x1F) == 7 || And(frame[0], 0x1F) == 8) then 0
    else 480
  }

  /** How many packets a frame makes. */
  function PacketCount(t: nat, frame: seq<byte>): nat {
    if frame == [] then 0 else if t == 1 || |frame| <= 1400 then 1 else (|frame| + 1399) / 1400
  }

  function Clock(t: nat, events: seq<Event>): nat {
    if events == [] then 0 else
      Clock(t, events[..|events| - 1])
      + match events[|events| - 1] case Frame(track, frame, _) => if track == t then ClockStep(t, frame) else 0 case _ => 0
  }

  function Count(t: nat, events: seq<Event>): nat {
    if events == [] then 0 else
      Count(t, events[..|events| - 1])
      + match events[|events| - 1] case Frame(track, frame, _) => if track == t then PacketCount(t, frame) else 0 case _ => 0
  }

  lemma StepMoves(t: nat, h: RtpHeader, frame: seq<byte>)
    requires h.Valid() && t < 2
    ensures HeaderAfter(t, h, frame).timestamp == (h.timestamp + ClockStep(t, frame)) % 0x1_0000_0000
    ensures HeaderAfter(t, h, frame).seqNo == (h.seqNo + PacketCount(t, frame)) % 0x1_0000
  {
    if t == 0 {
      H.HeaderMoves(h, frame, H264_FRAME_FPS);
    }
    hide And, H.HeaderAfter;
  }

  /** A sink's clock: 480 for every video frame but an SPS or PPS in one packet, 1024 for every audio
      frame, mod 2^32; and its next sequence number, mod 2^16. */
  lemma {:induction false} HeaderTellsTheTime(h: RtpHeader, t: nat, events: seq<Event>)
    requires h.Valid() && t < 2
    ensures HeaderOf(h, t, events).Valid()
    ensures HeaderOf(h, t, events).timestamp == (h.timestamp + Clock(t, events)) % 0x1_0000_0000
    ensures HeaderOf(h, t, events).seqNo == (h.seqNo + Count(t, events)) % 0x1_0000
    decreases |events|
  {
    if events != [] {
      var init, e := events[..|events| - 1], events[|events| - 1];
      HeaderTellsTheTime(h, t, init);
      hide HeaderAfter, ClockStep, PacketCount;
      if e.Frame? && e.track == t {
        assert HeaderOf(h, t, events) == HeaderAfter(t, HeaderOf(h, t, init), e.frame);
        assert Clock(t, events) == Clock(t, init) + ClockStep(t, e.frame) && Count(t, events) == Count(t, init) + PacketCount(t, e.frame);
        hide HeaderOf, Clock, Count;
        OneMoreTells(h, t, HeaderOf(h, t, init), e.frame, Clock(t, init), Count(t, init));
      }
    }
  }

  lemma OneMoreTells(h: RtpHeader, t: nat, g: RtpHeader, frame: seq<byte>, clock: nat, count: nat)
    requires g.Valid() && t < 2 && g.timestamp == (h.timestamp + clock) % 0x1_0000_0000 && g.seqNo == (h.seqNo + count) % 0x1_0000
    ensures HeaderAfter(t, g, frame).Valid()
    ensures HeaderAfter(t, g, frame).timestamp == (h.timestamp + (clock + ClockStep(t, frame))) % 0x1_0000_0000
    ensures HeaderAfter(t, g, frame).seqNo == (h.seqNo + (count + PacketCount(t, frame))) % 0x1_0000
  {
    FrameHeaders(t, g, frame, 0);
    StepMoves(t, g, frame);
    AddTwice(h.timestamp, clock, ClockStep(t, frame));
    AddTwice(h.seqNo, count, PacketCount(t, frame));
    hide *;
  }

  /** In every run, what a playing client is sent of one more frame: its packets carry the clock and
      the numbers that the frames before it have led to, whether or not the client got those. */
  lemma PacketsTellTheTime(ssrc0: nat, ssrc1: nat, events: seq<Event>, fd: int, t: nat, frame: seq<byte>, after: byte)
    requires ssrc0 < 0x1_0000_0000 && ssrc1 < 0x1_0000_0000 && t < 2
    requires SeenBy(Init(ssrc0, ssrc1).headers[t], fd, t, events).Playing?
    ensures var h := Init(ssrc0, ssrc1).headers[t];
            var before, through := SeenBy(h, fd, t, events), SeenBy(h, fd, t, events + [Frame(t, frame, after)]);
            && through.Playing? && before.packets <= through.packets
            && |through.packets| == |before.packets| + PacketCount(t, frame)
            && forall k :: |before.packets| <= k < |through.packets| ==>
                 && through.packets[k].header.timestamp == Clock(t, events) % 0x1_0000_0000
                 && through.packets[k].header.seqNo == (Count(t, events) + (k - |before.packets|)) % 0x1_0000
  {
    var h := Init(ssrc0, ssrc1).headers[t];
    assert (events + [Frame(t, frame, after)])[..|events|] == events;
    HeaderTellsTheTime(h, t, events);
    var g := HeaderOf(h, t, events);
    NumbersOfFrame(t, g, frame, after, Count(t, events));
    hide FramePackets, HeaderOf, PacketCount, Count, Clock;
  }

  lemma NumbersOfFrame(t: nat, g: RtpHeader, frame: seq<byte>, after: byte, count: nat)
    requires t < 2 && g.Valid() && g.seqNo == count % 0x1_0000
    ensures |FramePackets(t, g, frame, after)| == PacketCount(t, frame)
    ensures forall k :: 0 <= k < |FramePackets(t, g, frame, after)| ==>
              && FramePackets(t, g, frame, after)[k].header.timestamp == g.timestamp
              && FramePackets(t, g, frame, after)[k].header.seqNo == (count + k) % 0x1_0000
  {
    FrameHeaders(t, g, frame, after);
    if t == 0 && 1400 < |frame| {
      Digit(|frame| / 1400, |frame| % 1400, 1400);
    }
    var ps := FramePackets(t, g, frame, after);
    forall k | 0 <= k < |ps| ensures ps[k].header.seqNo == (count + k) % 0x1_0000 {
      AddTwice(0, count, k);
    }
  }

  // ----- Before PLAY and after closing -----

  lemma {:induction false} PlaysOnlyIfAsked(h: RtpHeader, fd: int, t: nat, events: seq<Event>)
    requires Play(fd) !in events
    ensures !SeenBy(h, fd, t, events).Playing?
    decreases |events|
  {
    if events != [] {
      PlaysOnlyIfAsked(h, fd, t, events[..|events| - 1]);
      hide FramePackets, HeaderOf;
    }
  }

  /** A client that has not sent PLAY has been sent nothing, on either track. */
  lemma NothingBeforePlay(ssrc0: nat, ssrc1: nat, events: seq<Event>, fd: int, t: nat)
    requires ssrc0 < 0x1_0000_0000 && ssrc1 < 0x1_0000_0000 && t < 2
    requires After(Init(ssrc0, ssrc1), events).Some? && Play(fd) !in events
    ensures var st := After(Init(ssrc0, ssrc1), events).value;
            Has(st, fd, t) ==> st.clients[fd][t] < |st.objects| && !Object(st, fd, t).r.alive && Object(st, fd, t).sent == []
  {
    ClientGetsItsFrames(ssrc0, ssrc1, events, fd, t);
    PlaysOnlyIfAsked(Init(ssrc0, ssrc1).headers[t], fd, t, events);
    hide After, SeenBy, Shape;
  }

  /** PLAY makes every track of the client play from there on that it has set up. */
  lemma PlayStarts(h: RtpHeader, fd: int, t: nat, events: seq<Event>)
    ensures SeenBy(h, fd, t, events + [Play(fd)])
         == match SeenBy(h, fd, t, events) case Absent => Absent case Ready => Playing([]) case Playing(ps) => Playing(ps)
  {
    assert (events + [Play(fd)])[..|events|] == events;
  }

  lemma {:induction false} QuietBroadcast(w: Wires, rs: seq<Receiver>, ps: seq<Packet>, fd: int)
    requires OnlyReaches(rs, fd, |rs|) && AllValid(ps)
    ensures Broadcast(w, rs, ps).StreamOf(fd) == w.StreamOf(fd)
    decreases |ps|
  {
    if ps != [] {
      QuietBroadcast(w, rs, ps[..|ps| - 1], fd);
      hide WirePacket, FanOut;
      FanOutStream(Broadcast(w, rs, ps[..|ps| - 1]), rs, WirePacket(ps[|ps| - 1]), fd, |rs|);
    }
  }

  /** Nothing is written to a connection that is closed. */
  lemma ClosedGetsNothing(st: State, e: Event, fd: int)
    requires Shape(st) && Enabled(st, e) && fd !in st.clients && fd !in Apply(st, e).clients
    ensures Apply(st, e).wires.StreamOf(fd) == st.wires.StreamOf(fd)
  {
    if e.Frame? {
      var h, rs := st.headers[e.track], Receivers(st, st.tracks[e.track]);
      FrameHeaders(e.track, h, e.frame, e.after);
      forall j | 0 <= j < |rs| ensures !Reaches(rs[j], fd) {
        var id := st.tracks[e.track][j];
        assert id in st.tracks[e.track] && Owned(st, e.track, id);
        assert Listed(st, st.objects[id].client, e.track);
      }
      hide FramePackets, HeaderAfter;
      QuietBroadcast(st.wires, rs, FramePackets(e.track, h, e.frame, e.after), fd);
    }
  }
}
