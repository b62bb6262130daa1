/** Runs from the first event to the bytes on the wire: what a client is sent of one frame, byte by
    byte, over UDP and over TCP. */
module ConcreteRuns {
  import opened Bytes
  import opened Rtp
  import opened Delivery
  import opened Streaming
  import opened StreamContents
  import H = H264Packets
  import A = AacPackets

  /** A client connects, sets up both tracks and plays. */
  function Requests(fd: int, first: Transport, second: Transport): seq<Event> {
    [Accept(fd), Setup(fd, 0, first.isTcp, first.socket, first.channel),
     Setup(fd, 1, second.isTcp, second.socket, second.channel), Play(fd)]
  }

  /** Its transports: over TCP on its connection, or over UDP sockets that are not shared. */
  predicate Possible(fd: int, first: Transport, second: Transport) {
    && (first.isTcp ==> first.socket == fd) && (second.isTcp ==> second.socket == fd)
    && (!first.isTcp && !second.isTcp ==> first.socket != second.socket)
  }

  function Made(fd: int, n: Transport, track: nat, alive: bool): Receiving {
    Receiving(Receiver(n.socket, n.isTcp, n.channel, alive), fd, track, [])
  }

  /** The state after k of the requests. */
  function Stage(k: nat, ssrc0: nat, ssrc1: nat, fd: int, first: Transport, second: Transport): State {
    var objects := if k < 2 then [] else if k == 2 then [Made(fd, first, 0, false)]
                   else [Made(fd, first, 0, k == 4), Made(fd, second, 1, k == 4)];
    var ids: seq<nat> := if k < 2 then [] else if k == 2 then [0] else [0, 1];
    State(objects, if k == 0 then map[] else map[fd := ids],
          [if k < 2 then [] else [0], if k < 3 then [] else [1]],
          [RtpHeader(0, 0, 0, 2, 96, 0, 0, 0, ssrc0), RtpHeader(0, 0, 0, 2, 97, 0, 0, 0, ssrc1)],
          Wires(if k == 0 then map[] else map[fd := []], map[]))
  }

  ghost predicate Leads(st: State, e: Event, next: State) {
    InRange(st) && Enabled(st, e) && Apply(st, e) == next
  }

  lemma Connects(ssrc0: nat, ssrc1: nat, fd: int, first: Transport, second: Transport)
    requires ssrc0 < 0x1_0000_0000 && ssrc1 < 0x1_0000_0000
    ensures Leads(Stage(0, ssrc0, ssrc1, fd, first, second), Accept(fd), Stage(1, ssrc0, ssrc1, fd, first, second))
  {
    var st := Apply(Stage(0, ssrc0, ssrc1, fd, first, second), Accept(fd));
    assert st.clients == map[fd := []] && st.wires.streams == map[fd := []];
  }

  lemma SetsUpFirst(ssrc0: nat, ssrc1: nat, fd: int, first: Transport, second: Transport)
    requires ssrc0 < 0x1_0000_0000 && ssrc1 < 0x1_0000_0000 && Possible(fd, first, second)
    ensures Leads(Stage(1, ssrc0, ssrc1, fd, first, second), Setup(fd, 0, first.isTcp, first.socket, first.channel),
                  Stage(2, ssrc0, ssrc1, fd, first, second))
  {
    var st := Apply(Stage(1, ssrc0, ssrc1, fd, first, second), Setup(fd, 0, first.isTcp, first.socket, first.channel));
    var before := Stage(1, ssrc0, ssrc1, fd, first, second);
    assert before.clients[fd] + [0] == [0] && before.tracks[0] + [0] == [0];
    assert st.objects == before.objects + [Made(fd, first, 0, false)];
    assert st.clients == map[fd := [0]] && st.tracks == [[0], []] && st.objects == [Made(fd, first, 0, false)];
  }

  lemma SetsUpSecond(ssrc0: nat, ssrc1: nat, fd: int, first: Transport, second: Transport)
    requires ssrc0 < 0x1_0000_0000 && ssrc1 < 0x1_0000_0000 && Possible(fd, first, second)
    ensures Leads(Stage(2, ssrc0, ssrc1, fd, first, second), Setup(fd, 1, second.isTcp, second.socket, second.channel),
                  Stage(3, ssrc0, ssrc1, fd, first, second))
  {
    var st := Apply(Stage(2, ssrc0, ssrc1, fd, first, second), Setup(fd, 1, second.isTcp, second.socket, second.channel));
    var before := Stage(2, ssrc0, ssrc1, fd, first, second);
    assert before.clients[fd] + [1] == [0, 1] && before.tracks[1] + [1] == [1];
    assert st.clients == map[fd := [0, 1]] && st.tracks == [[0], [1]];
    assert st.objects == [Made(fd, first, 0, false), Made(fd, second, 1, false)];
  }

  lemma Plays(ssrc0: nat, ssrc1: nat, fd: int, first: Transport, second: Transport)
    requires ssrc0 < 0x1_0000_0000 && ssrc1 < 0x1_0000_0000
    ensures Leads(Stage(3, ssrc0, ssrc1, fd, first, second), Play(fd), Stage(4, ssrc0, ssrc1, fd, first, second))
  {
    var st := Apply(Stage(3, ssrc0, ssrc1, fd, first, second), Play(fd));
    assert st.objects == [Made(fd, first, 0, true), Made(fd, second, 1, true)];
  }

  lemma OneMoreStage(start: State, events: seq<Event>, st: State, e: Event, next: State)
    requires After(start, events) == Some(st) && Leads(st, e, next)
    ensures After(start, events + [e]) == Some(next)
  {
    OneMoreEvent(start, events, e);
    hide *;
  }

  /** After the requests both receivers are alive and nothing has been sent. */
  lemma BothPlay(ssrc0: nat, ssrc1: nat, fd: int, first: Transport, second: Transport)
    requires ssrc0 < 0x1_0000_0000 && ssrc1 < 0x1_0000_0000 && Possible(fd, first, second)
    ensures After(Init(ssrc0, ssrc1), Requests(fd, first, second)) == Some(Stage(4, ssrc0, ssrc1, fd, first, second))
  {
    var start := Init(ssrc0, ssrc1);
    var e := Requests(fd, first, second);
    assert start == Stage(0, ssrc0, ssrc1, fd, first, second) && After(start, []) == Some(start);
    assert [] + [e[0]] + [e[1]] + [e[2]] + [e[3]] == e;
    Connects(ssrc0, ssrc1, fd, first, second);
    SetsUpFirst(ssrc0, ssrc1, fd, first, second);
    SetsUpSecond(ssrc0, ssrc1, fd, first, second);
    Plays(ssrc0, ssrc1, fd, first, second);
    hide Leads, Init, Stage, After;
    OneMoreStage(start, [], Stage(0, ssrc0, ssrc1, fd, first, second), e[0], Stage(1, ssrc0, ssrc1, fd, first, second));
    OneMoreStage(start, [] + [e[0]], Stage(1, ssrc0, ssrc1, fd, first, second), e[1], Stage(2, ssrc0, ssrc1, fd, first, second));
    OneMoreStage(start, [] + [e[0]] + [e[1]], Stage(2, ssrc0, ssrc1, fd, first, second), e[2], Stage(3, ssrc0, ssrc1, fd, first, second));
    OneMoreStage(start, [] + [e[0]] + [e[1]] + [e[2]], Stage(3, ssrc0, ssrc1, fd, first, second), e[3], Stage(4, ssrc0, ssrc1, fd, first, second));
  }

  // ----- One frame -----

  /** The packet of the first frame of a track, byte by byte: version 2; the payload type; sequence
      number 0; timestamp 0; the ssrc; and the frame, behind its AU header if it is audio. */
  function FirstPacket(t: nat, ssrc: nat, frame: seq<byte>): seq<byte>
    requires t < 2 && ssrc < 0x1_0000_0000
  {
    [0x80, 96 + t, 0, 0, 0, 0, 0, 0, ssrc / 0x100_0000, ssrc / 0x1_0000 % 256, ssrc / 256 % 256, ssrc % 256]
    + (if t == 0 then [] else [0, 16, |frame| / 32 % 256, |frame| % 32 * 8]) + frame
  }

  lemma FirstPacketIs(ssrc0: nat, ssrc1: nat, t: nat, frame: seq<byte>, after: byte)
    requires ssrc0 < 0x1_0000_0000 && ssrc1 < 0x1_0000_0000 && t < 2
    requires 1 <= |frame| <= if t == 0 then 1400 else 1398
    ensures var ps := FramePackets(t, Init(ssrc0, ssrc1).headers[t], frame, after);
            |ps| == 1 && ps[0].header.Valid() && WirePacket(ps[0]) == FirstPacket(t, if t == 0 then ssrc0 else ssrc1, frame)
  {
    var h, ssrc := Init(ssrc0, ssrc1).headers[t], if t == 0 then ssrc0 else ssrc1;
    assert h == RtpHeader(0, 0, 0, 2, 96 + t, 0, 0, 0, ssrc);
    var p := FramePackets(t, h, frame, after)[0];
    assert p == Packet(h, (if t == 0 then [] else [0, 16, |frame| / 32 % 256, |frame| % 32 * 8]) + frame);
    BytesOfHeader(p, t, ssrc);
    hide WirePacket, Init, FramePackets, FirstHeader;
  }

  /** One receiver, one packet. */
  lemma OnePacketGoesOut(w: Wires, r: Receiver, p: Packet)
    requires p.header.Valid()
    ensures AllValid([p]) && Broadcast(w, [r], [p]) == Deliver(w, r, WirePacket(p))
  {
    assert [p][..0] == [] && [r][..0] == [];
    hide Deliver, WirePacket;
    assert Broadcast(w, [r], []) == w && FanOut(w, [], WirePacket(p)) == w;
  }

  /** A state with these two receivers sends the one packet of a frame. */
  lemma FrameGoesOut(st: State, r: Receiver, e: Event, p: Packet)
    requires InRange(st) && Enabled(st, e) && e.Frame? && st.tracks == [[0], [1]] && |st.objects| == 2 && r == st.objects[e.track].r
    requires p.header.Valid() && FramePackets(e.track, st.headers[e.track], e.frame, e.after) == [p]
    ensures Apply(st, e).wires == Deliver(st.wires, r, WirePacket(p))
  {
    hide FramePackets, HeaderAfter, WirePacket, Deliver, Broadcast;
    var rs := Receivers(st, st.tracks[e.track]);
    assert rs == [r];
    OnePacketGoesOut(st.wires, r, p);
  }

  /** Over TCP the packet is behind four bytes of framing: dollar sign, channel, length. Over UDP it
      is one datagram. */
  function FirstWires(fd: int, transport: Transport, packet: seq<byte>): Wires {
    if transport.isTcp
    then Wires(map[fd := [0x24, transport.channel % 256, |packet| / 256 % 256, |packet| % 256] + packet], map[])
    else Wires(map[fd := []], map[transport.socket := [packet]])
  }

  lemma StageIsReady(ssrc0: nat, ssrc1: nat, fd: int, first: Transport, second: Transport, t: nat, frame: seq<byte>, after: byte)
    requires ssrc0 < 0x1_0000_0000 && ssrc1 < 0x1_0000_0000 && t < 2 && (t == 1 ==> |frame| <= 1398)
    ensures var st := Stage(4, ssrc0, ssrc1, fd, first, second); InRange(st) && Enabled(st, Frame(t, frame, after))
  {
    var st := Stage(4, ssrc0, ssrc1, fd, first, second);
    assert st.headers[0].Valid() && st.headers[1].Valid();
  }

  /** Every client that sets up both tracks and plays is sent the first short frame of either, byte by
      byte, over the transport it has named, and nothing else. */
  lemma FirstFrameGoesOut(ssrc0: nat, ssrc1: nat, fd: int, first: Transport, second: Transport, t: nat, frame: seq<byte>, after: byte)
    requires ssrc0 < 0x1_0000_0000 && ssrc1 < 0x1_0000_0000 && Possible(fd, first, second) && t < 2
    requires 1 <= |frame| <= if t == 0 then 1400 else 1398
    ensures var st := After(Init(ssrc0, ssrc1), Requests(fd, first, second) + [Frame(t, frame, after)]);
            && st.Some?
            && st.value.wires == FirstWires(fd, if t == 0 then first else second, FirstPacket(t, if t == 0 then ssrc0 else ssrc1, frame))
  {
    hide After, Requests, FramePackets, FirstPacket, Init, InRange, Enabled, Apply, WirePacket;
    BothPlay(ssrc0, ssrc1, fd, first, second);
    FirstPacketIs(ssrc0, ssrc1, t, frame, after);
    var st := Stage(4, ssrc0, ssrc1, fd, first, second);
    assert st.headers == Init(ssrc0, ssrc1).headers by { StartsWith(ssrc0, ssrc1); }
    StageIsReady(ssrc0, ssrc1, fd, first, second, t, frame, after);
    OneMoreEvent(Init(ssrc0, ssrc1), Requests(fd, first, second), Frame(t, frame, after));
    FrameGoesOut(st, st.objects[t].r, Frame(t, frame, after), FramePackets(t, st.headers[t], frame, after)[0]);
    FirstDelivery(fd, if t == 0 then first else second, FirstPacket(t, if t == 0 then ssrc0 else ssrc1, frame));
  }

  lemma FirstDelivery(fd: int, n: Transport, packet: seq<byte>)
    requires n.isTcp ==> n.socket == fd
    ensures Deliver(Wires(map[fd := []], map[]), Receiver(n.socket, n.isTcp, n.channel, true), packet) == FirstWires(fd, n, packet)
  {
    assert [] + Framed(n.channel, packet) == Framed(n.channel, packet) && [] + [packet] == [packet];
    var streams: map<int, seq<byte>> := map[fd := []];
    assert streams[fd := Framed(n.channel, packet)] == map[fd := Framed(n.channel, packet)];
  }

  lemma StartsWith(ssrc0: nat, ssrc1: nat)
    ensures Init(ssrc0, ssrc1).headers
         == [RtpHeader(0, 0, 0, 2, 96, 0, 0, 0, ssrc0), RtpHeader(0, 0, 0, 2, 97, 0, 0, 0, ssrc1)]
  {
  }

  // ----- A client that closes -----

  lemma Closes(ssrc0: nat, ssrc1: nat, fd: int, first: Transport, second: Transport)
    requires ssrc0 < 0x1_0000_0000 && ssrc1 < 0x1_0000_0000
    ensures var st := Stage(4, ssrc0, ssrc1, fd, first, second);
            Leads(st, Close(fd), st.(clients := map[], tracks := [[], []]))
  {
    var st := Apply(Stage(4, ssrc0, ssrc1, fd, first, second), Close(fd));
    assert st.clients == map[] && [0][1..] == [] && [1][1..] == [];
  }

  /** Such a client can close, and is sent nothing of what comes then. */
  lemma ClosedClientIsLeftOut(ssrc0: nat, ssrc1: nat, fd: int, first: Transport, second: Transport, t: nat, frame: seq<byte>, after: byte)
    requires ssrc0 < 0x1_0000_0000 && ssrc1 < 0x1_0000_0000 && Possible(fd, first, second) && t < 2
    requires t == 1 ==> |frame| <= 1398
    ensures var st := After(Init(ssrc0, ssrc1), Requests(fd, first, second) + [Close(fd)] + [Frame(t, frame, after)]);
            st.Some? && st.value.wires == Wires(map[fd := []], map[]) && st.value.clients == map[]
  {
    hide After, Requests, Init, InRange, Enabled, Apply, Leads, Stage;
    BothPlay(ssrc0, ssrc1, fd, first, second);
    Closes(ssrc0, ssrc1, fd, first, second);
    var st := Stage(4, ssrc0, ssrc1, fd, first, second).(clients := map[], tracks := [[], []]);
    OneMoreStage(Init(ssrc0, ssrc1), Requests(fd, first, second), Stage(4, ssrc0, ssrc1, fd, first, second), Close(fd), st);
    FrameToNobody(ssrc0, ssrc1, fd, first, second, t, frame, after);
    OneMoreEvent(Init(ssrc0, ssrc1), Requests(fd, first, second) + [Close(fd)], Frame(t, frame, after));
  }

  lemma FrameToNobody(ssrc0: nat, ssrc1: nat, fd: int, first: Transport, second: Transport, t: nat, frame: seq<byte>, after: byte)
    requires ssrc0 < 0x1_0000_0000 && ssrc1 < 0x1_0000_0000 && t < 2 && (t == 1 ==> |frame| <= 1398)
    ensures var st := Stage(4, ssrc0, ssrc1, fd, first, second).(clients := map[], tracks := [[], []]);
            && InRange(st) && Enabled(st, Frame(t, frame, after))
            && Apply(st, Frame(t, frame, after)).wires == Wires(map[fd := []], map[]) && Apply(st, Frame(t, frame, after)).clients == map[]
  {
    var st := Stage(4, ssrc0, ssrc1, fd, first, second).(clients := map[], tracks := [[], []]);
    StageIsReady(ssrc0, ssrc1, fd, first, second, t, frame, after);
    var h := st.headers[t];
    FrameHeaders(t, h, frame, after);
    hide FramePackets, HeaderAfter;
    NobodyListens(st.wires, FramePackets(t, h, frame, after));
  }

  lemma {:induction false} NobodyListens(w: Wires, ps: seq<Packet>)
    requires AllValid(ps)
    ensures Broadcast(w, [], ps) == w
    decreases |ps|
  {
    if ps != [] {
      NobodyListens(w, ps[..|ps| - 1]);
    }
  }
}
