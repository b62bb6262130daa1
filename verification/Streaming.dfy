/**
 Clients, tracks and frames: RtspConnection's requests, the receiver lists of MediaSession and
 the frames its sinks send, as one machine over events in the order the event loop handles them.

 A client sets up nothing, or track 0 and then track 1, before it closes: the destructor of
 RtspConnection takes exactly those two receivers out of the session's lists.
 */
module Streaming {
  import opened Bytes
  import opened Rtp
  import opened Delivery
  import H = H264Packets
  import A = AacPackets

  /** An RtpConnection object, who set it up, and the packets it has passed on. */
  datatype Receiving = Receiving(r: Receiver, client: int, track: nat, sent: seq<Packet>)

  datatype State = State(
    objects: seq<Receiving>,       // every RtpConnection made so far; its index is its identity
    clients: map<int, seq<nat>>,   // open connections and their rtp_conns_
    tracks: seq<seq<nat>>,         // rtp_conns_ of the session's two tracks
    headers: seq<RtpHeader>,       // rtp_header_ of the two sinks
    wires: Wires)

  datatype Event =
    | Accept(fd: int)
    | Setup(fd: int, track: nat, isTcp: bool, socket: int, channel: nat)
    | Play(fd: int)
    | Close(fd: int)
    | Frame(track: nat, frame: seq<byte>, after: byte)

  function FramePackets(track: nat, h: RtpHeader, frame: seq<byte>, after: byte): seq<Packet> {
    if track == 0 then H.PacketsOf(h, frame, after)
    else if frame == [] then [] else [A.AacPacket(h, frame)]
  }

  const H264_FRAME_FPS: nat := 25

  function HeaderAfter(track: nat, h: RtpHeader, frame: seq<byte>): RtpHeader {
    if track == 0 then H.HeaderAfter(h, frame, H264_FRAME_FPS)
    else if frame == [] then h else A.AacHeaderAfter(h)
  }

  lemma FrameHeaders(track: nat, h: RtpHeader, frame: seq<byte>, after: byte)
    requires h.Valid()
    ensures var ps := FramePackets(track, h, frame, after);
            && (forall k :: 0 <= k < |ps| ==> ps[k].header == h.(seqNo := (h.seqNo + k) % 0x1_0000))
            && HeaderAfter(track, h, frame).Valid()
            && HeaderAfter(track, h, frame).seqNo == (h.seqNo + |ps|) % 0x1_0000
    ensures track != 0 ==> forall k :: 0 <= k < |FramePackets(track, h, frame, after)| ==> |FramePackets(track, h, frame, after)[k].payload| == 4 + |frame|
    ensures track == 0 ==> forall k :: 0 <= k < |FramePackets(track, h, frame, after)| ==> |FramePackets(track, h, frame, after)[k].payload| <= PAYLOAD_ROOM
  {
    H.PacketHeaders(h, frame, after);
    H.PacketHeaders(h, frame, 0);
    assert h.(seqNo := (h.seqNo + 0) % 0x1_0000) == h;
    if RTP_MAX_PKT_SIZE < |frame| {
      H.FragmentsAreWellFormed(h, frame + [after], |frame|);
    }
  }

  function Init(ssrc0: nat, ssrc1: nat): State {
    State([], map[], [[], []],
          [FirstHeader(96, ssrc0), FirstHeader(97, ssrc1)], Wires(map[], map[]))
  }

  predicate Enabled(st: State, e: Event) {
    match e
    case Accept(fd) => fd !in st.clients
    case Setup(fd, track, isTcp, socket, _) =>
      && fd in st.clients && track == |st.clients[fd]| < 2
      && (if isTcp then socket == fd
          else forall i :: 0 <= i < |st.objects| ==> st.objects[i].r.isTcp || st.objects[i].r.fd != socket)
    case Play(fd) => fd in st.clients
    case Close(fd) => fd in st.clients && |st.clients[fd]| != 1
    case Frame(track, frame, _) => track < 2 && (track == 1 ==> !A.Overruns(frame))
  }

  function Receivers(st: State, ids: seq<nat>): (rs: seq<Receiver>)
    requires forall id: nat :: id in ids ==> id < |st.objects|
    ensures |rs| == |ids| && forall i :: 0 <= i < |ids| ==> ids[i] in ids && rs[i] == st.objects[ids[i]].r
  {
    seq(|ids|, i requires 0 <= i < |ids| => assert ids[i] in ids; st.objects[ids[i]].r)
  }

  ghost predicate InRange(st: State) {
    && |st.tracks| == 2 && |st.headers| == 2
    && (forall t :: 0 <= t < 2 ==> st.headers[t].Valid())
    && (forall t, id: nat :: 0 <= t < 2 && id in st.tracks[t] ==> id < |st.objects|)
  }

  /** handlePlay: every RtpConnection of the client becomes alive. */
  function Played(st: State, fd: int): (objects: seq<Receiving>)
    requires fd in st.clients
    ensures |objects| == |st.objects|
    ensures forall i :: 0 <= i < |objects| ==>
              objects[i] == if i in st.clients[fd] then st.objects[i].(r := st.objects[i].r.(alive := true)) else st.objects[i]
  {
    seq(|st.objects|, i requires 0 <= i < |st.objects| =>
      if i in st.clients[fd] then st.objects[i].(r := st.objects[i].r.(alive := true)) else st.objects[i])
  }

  /** Every live receiver of the track passes the packets on. */
  function PassedOn(st: State, track: nat, ps: seq<Packet>): (objects: seq<Receiving>)
    requires track < |st.tracks|
    ensures |objects| == |st.objects|
    ensures forall i :: 0 <= i < |objects| ==>
              objects[i] == if i in st.tracks[track] && st.objects[i].r.alive
                            then st.objects[i].(sent := st.objects[i].sent + ps) else st.objects[i]
  {
    seq(|st.objects|, i requires 0 <= i < |st.objects| =>
      if i in st.tracks[track] && st.objects[i].r.alive
      then st.objects[i].(sent := st.objects[i].sent + ps) else st.objects[i])
  }

  ghost function Apply(st: State, e: Event): State
    requires InRange(st) && Enabled(st, e)
  {
    match e
    case Accept(fd) =>
      st.(clients := st.clients[fd := []], wires := st.wires.(streams := st.wires.streams[fd := []]))
    case Setup(fd, track, isTcp, socket, channel) =>
      var id := |st.objects|;
      st.(objects := st.objects + [Receiving(Receiver(socket, isTcp, channel, false), fd, track, [])],
          clients := st.clients[fd := st.clients[fd] + [id]],
          tracks := st.tracks[track := st.tracks[track] + [id]])
    case Play(fd) => st.(objects := Played(st, fd))
    case Close(fd) =>
      var ids := st.clients[fd];
      var tracks := if ids == [] then st.tracks else [Without(st.tracks[0], ids[0]), Without(st.tracks[1], ids[1])];
      st.(clients := st.clients - {fd}, tracks := tracks)
    case Frame(track, frame, after) =>
      var h := st.headers[track];
      FrameHeaders(track, h, frame, after);
      var ps := FramePackets(track, h, frame, after);
      st.(objects := PassedOn(st, track, ps),
          headers := st.headers[track := HeaderAfter(track, h, frame)],
          wires := Broadcast(st.wires, Receivers(st, st.tracks[track]), ps))
  }

  // ----- The shape of the lists -----

  ghost predicate Has(st: State, fd: int, t: nat) {
    fd in st.clients && t < |st.clients[fd]|
  }

  /** rtp_conns_[t] of client fd is the one receiver of that client on track t. */
  ghost predicate Listed(st: State, fd: int, t: nat)
    requires InRange(st) && Has(st, fd, t)
  {
    var id := st.clients[fd][t];
    && t < 2 && id < |st.objects|
    && st.objects[id].client == fd && st.objects[id].track == t
    && (st.objects[id].r.isTcp ==> st.objects[id].r.fd == fd)
    && id in st.tracks[t]
  }

  ghost predicate Owned(st: State, t: nat, id: nat)
    requires InRange(st) && id < |st.objects|
  {
    && st.objects[id].track == t
    && Has(st, st.objects[id].client, t) && st.clients[st.objects[id].client][t] == id
  }

  ghost predicate Shape(st: State) {
    && InRange(st)
    && (forall fd, t: nat :: Has(st, fd, t) ==> Listed(st, fd, t))
    && (forall t, id: nat :: 0 <= t < 2 && id in st.tracks[t] ==> Owned(st, t, id))
    && Distinct(st.tracks[0]) && Distinct(st.tracks[1])
  }

  lemma SetupKeepsShape(st: State, e: Event)
    requires Shape(st) && Enabled(st, e) && e.Setup?
    ensures Shape(Apply(st, e))
  {
    var st', id := Apply(st, e), |st.objects|;
    assert forall t: nat :: t < 2 ==> id !in st.tracks[t];
    forall t, i: nat | 0 <= t < 2 && i in st'.tracks[t] ensures i < |st'.objects| && Owned(st', t, i) {
      if i != id {
        assert Owned(st, t, i);
      }
    }
    forall fd, t: nat | Has(st', fd, t) ensures Listed(st', fd, t) {
      if fd != e.fd || t != e.track {
        assert Has(st, fd, t) && Listed(st, fd, t);
      }
    }
  }

  lemma CloseKeepsShape(st: State, e: Event)
    requires Shape(st) && Enabled(st, e) && e.Close?
    ensures Shape(Apply(st, e))
  {
    var st', ids := Apply(st, e), st.clients[e.fd];
    if ids != [] {
      assert Has(st, e.fd, 0) && Has(st, e.fd, 1);
      WithoutDistinct(st.tracks[0], ids[0]);
      WithoutDistinct(st.tracks[1], ids[1]);
    }
    forall t, i: nat | 0 <= t < 2 && i in st'.tracks[t] ensures i < |st'.objects| && Owned(st', t, i) {
      assert Owned(st, t, i);
    }
    forall fd, t: nat | Has(st', fd, t) ensures Listed(st', fd, t) {
      assert Has(st, fd, t) && Listed(st, fd, t);
    }
  }

  /** Same lists, same clients, and objects that differ only in alive and sent. */
  ghost predicate SameLists(st: State, st': State) {
    && st'.clients == st.clients && st'.tracks == st.tracks && |st'.objects| == |st.objects|
    && forall i :: 0 <= i < |st.objects| ==>
         && st'.objects[i].client == st.objects[i].client && st'.objects[i].track == st.objects[i].track
         && st'.objects[i].r == st.objects[i].r.(alive := st'.objects[i].r.alive)
  }

  lemma SameListsKeepShape(st: State, st': State)
    requires Shape(st) && SameLists(st, st') && InRange(st')
    ensures Shape(st')
  {
    forall t, i: nat | 0 <= t < 2 && i in st'.tracks[t] ensures Owned(st', t, i) {
      assert Owned(st, t, i);
    }
    forall fd, t: nat | Has(st', fd, t) ensures Listed(st', fd, t) {
      assert Has(st, fd, t) && Listed(st, fd, t);
    }
  }

  lemma AcceptKeepsShape(st: State, e: Event)
    requires Shape(st) && Enabled(st, e) && e.Accept?
    ensures Shape(Apply(st, e))
  {
    var st' := Apply(st, e);
    forall t, i: nat | 0 <= t < 2 && i in st'.tracks[t] ensures Owned(st', t, i) {
      assert Owned(st, t, i);
    }
    forall fd, t: nat | Has(st', fd, t) ensures Listed(st', fd, t) {
      assert Has(st, fd, t) && Listed(st, fd, t);
    }
  }

  lemma StepKeepsShape(st: State, e: Event)
    requires Shape(st) && Enabled(st, e)
    ensures Shape(Apply(st, e))
  {
    match e
    case Accept(_) => AcceptKeepsShape(st, e);
    case Setup(_, _, _, _, _) => SetupKeepsShape(st, e);
    case Close(_) => CloseKeepsShape(st, e);
    case Play(_) => SameListsKeepShape(st, Apply(st, e));
    case Frame(_, _, _) => FrameKeepsShape(st, e);
  }

  lemma FrameKeepsShape(st: State, e: Event)
    requires Shape(st) && Enabled(st, e) && e.Frame?
    ensures Shape(Apply(st, e))
  {
    FrameKeepsRange(st, e);
    FrameKeepsLists(st, e);
    hide *;
    SameListsKeepShape(st, Apply(st, e));
  }

  lemma FrameKeepsRange(st: State, e: Event)
    requires InRange(st) && Enabled(st, e) && e.Frame?
    ensures InRange(Apply(st, e))
  {
    hide FramePackets, HeaderAfter, Broadcast;
    FrameHeaders(e.track, st.headers[e.track], e.frame, e.after);
  }

  lemma FrameKeepsLists(st: State, e: Event)
    requires InRange(st) && Enabled(st, e) && e.Frame?
    ensures SameLists(st, Apply(st, e))
  {
    hide FramePackets, HeaderAfter, Broadcast;
  }

  // ----- What one client gets, seen from its own events and its track's frames -----

  datatype Seen = Absent | Ready | Playing(packets: seq<Packet>)

  /** The header of a track's sink after a run: only the track's own frames count. */
  function HeaderOf(h: RtpHeader, t: nat, events: seq<Event>): RtpHeader {
    if events == [] then h else
      var g := HeaderOf(h, t, events[..|events| - 1]);
      match events[|events| - 1]
      case Frame(track, frame, _) => if track == t then HeaderAfter(t, g, frame) else g
      case _ => g
  }

  function NextSeen(s: Seen, h: RtpHeader, fd: int, t: nat, e: Event): Seen {
    match e
    case Accept(f) => if f == fd then Absent else s
    case Setup(f, track, _, _, _) => if f == fd && track == t then Ready else s
    case Play(f) => if f == fd && s.Ready? then Playing([]) else s
    case Close(f) => if f == fd then Absent else s
    case Frame(track, frame, after) =>
      if track == t && s.Playing? then Playing(s.packets + FramePackets(t, h, frame, after)) else s
  }

  /** What client fd has been sent on track t: nothing before PLAY, then every packet of every
      frame until the connection closes. */
  function SeenBy(h: RtpHeader, fd: int, t: nat, events: seq<Event>): Seen {
    if events == [] then Absent else
      var init := events[..|events| - 1];
      NextSeen(SeenBy(h, fd, t, init), HeaderOf(h, t, init), fd, t, events[|events| - 1])
  }

  /** The state after a run; None if the run is not possible. */
  ghost function After(st: State, events: seq<Event>): Option<State> {
    if events == [] then Some(st) else
      match After(st, events[..|events| - 1])
      case None => None
      case Some(mid) =>
        var e := events[|events| - 1];
        if InRange(mid) && Enabled(mid, e) then Some(Apply(mid, e)) else None
  }

  lemma OneMoreEvent(st: State, events: seq<Event>, e: Event)
    requires After(st, events).Some? && InRange(After(st, events).value) && Enabled(After(st, events).value, e)
    ensures After(st, events + [e]) == Some(Apply(After(st, events).value, e))
  {
    assert (events + [e])[..|events|] == events;
    hide Enabled, Apply, InRange;
  }

  ghost predicate Agrees(st: State, s: Seen, fd: int, t: nat) {
    match s
    case Absent => !Has(st, fd, t)
    case Ready =>
      && Has(st, fd, t) && st.clients[fd][t] < |st.objects|
      && !st.objects[st.clients[fd][t]].r.alive && st.objects[st.clients[fd][t]].sent == []
    case Playing(packets) =>
      && Has(st, fd, t) && st.clients[fd][t] < |st.objects|
      && st.objects[st.clients[fd][t]].r.alive && st.objects[st.clients[fd][t]].sent == packets
  }

  lemma StepAgrees(st: State, e: Event, s: Seen, fd: int, t: nat)
    requires Shape(st) && Enabled(st, e) && t < 2 && Agrees(st, s, fd, t)
    ensures Agrees(Apply(st, e), NextSeen(s, st.headers[t], fd, t, e), fd, t)
  {
    hide FramePackets, HeaderAfter;
    match e
    case Play(_) => PlayAgrees(st, e, s, fd, t);
    case Frame(_, _, _) => FrameAgrees(st, e, s, fd, t);
    case _ => assert Has(st, fd, t) ==> Listed(st, fd, t);
  }

  lemma PlayAgrees(st: State, e: Event, s: Seen, fd: int, t: nat)
    requires Shape(st) && Enabled(st, e) && t < 2 && Agrees(st, s, fd, t) && e.Play?
    ensures Agrees(Apply(st, e), NextSeen(s, st.headers[t], fd, t, e), fd, t)
  {
    hide FramePackets, HeaderAfter;
    var f := e.fd;
    assert Has(st, fd, t) ==> Listed(st, fd, t);
    if Has(st, fd, t) && st.clients[fd][t] in st.clients[f] {
      var u: nat :| u < |st.clients[f]| && st.clients[f][u] == st.clients[fd][t];
      assert Has(st, f, u) && Listed(st, f, u);
    }
  }

  lemma FrameAgrees(st: State, e: Event, s: Seen, fd: int, t: nat)
    requires Shape(st) && Enabled(st, e) && t < 2 && Agrees(st, s, fd, t) && e.Frame?
    ensures Agrees(Apply(st, e), NextSeen(s, st.headers[t], fd, t, e), fd, t)
  {
    hide FramePackets, HeaderAfter, Broadcast;
    assert Has(st, fd, t) ==> Listed(st, fd, t);
    if Has(st, fd, t) && st.clients[fd][t] in st.tracks[e.track] {
      assert Owned(st, e.track, st.clients[fd][t]);
    }
  }

  /** In every run, every client has been sent on every track exactly what its own requests and
      the track's frames call for, whatever other clients do. */
  lemma {:induction false} ClientGetsItsFrames(ssrc0: nat, ssrc1: nat, events: seq<Event>, fd: int, t: nat)
    requires ssrc0 < 0x1_0000_0000 && ssrc1 < 0x1_0000_0000 && t < 2
    requires After(Init(ssrc0, ssrc1), events).Some?
    ensures var st := After(Init(ssrc0, ssrc1), events).value;
            var h := Init(ssrc0, ssrc1).headers[t];
            && Shape(st)
            && st.headers[t] == HeaderOf(h, t, events)
            && Agrees(st, SeenBy(h, fd, t, events), fd, t)
    decreases |events|
  {
    if events != [] {
      var init, e := events[..|events| - 1], events[|events| - 1];
      ClientGetsItsFrames(ssrc0, ssrc1, init, fd, t);
      var mid := After(Init(ssrc0, ssrc1), init).value;
      StepKeepsShape(mid, e);
      StepAgrees(mid, e, SeenBy(Init(ssrc0, ssrc1).headers[t], fd, t, init), fd, t);
      hide FramePackets, HeaderAfter, Shape, Agrees, NextSeen;
    }
  }

  /** The events that concern client fd or track t. */
  function Relevant(events: seq<Event>, fd: int, t: nat): seq<Event> {
    if events == [] then [] else
      var e := events[|events| - 1];
      Relevant(events[..|events| - 1], fd, t)
      + if (if e.Frame? then e.track == t else e.fd == fd) then [e] else []
  }

  lemma {:induction false} OnlyRelevantCount(h: RtpHeader, fd: int, t: nat, events: seq<Event>)
    ensures SeenBy(h, fd, t, events) == SeenBy(h, fd, t, Relevant(events, fd, t))
    ensures HeaderOf(h, t, events) == HeaderOf(h, t, Relevant(events, fd, t))
    decreases |events|
  {
    if events != [] {
      var init, e := events[..|events| - 1], events[|events| - 1];
      assert init + [e] == events;
      OnlyRelevantCount(h, fd, t, init);
      OneMoreSeen(h, fd, t, init, Relevant(init, fd, t), e);
      hide SeenBy, HeaderOf, NextSeen;
      assert Relevant(init, fd, t) + [] == Relevant(init, fd, t);
    }
  }

  /** One more event on two runs that look the same to the client, or on one of them if it does not
      concern the client. */
  lemma OneMoreSeen(h: RtpHeader, fd: int, t: nat, events: seq<Event>, kept: seq<Event>, e: Event)
    requires SeenBy(h, fd, t, events) == SeenBy(h, fd, t, kept) && HeaderOf(h, t, events) == HeaderOf(h, t, kept)
    ensures SeenBy(h, fd, t, events + [e]) == SeenBy(h, fd, t, kept + [e]) && HeaderOf(h, t, events + [e]) == HeaderOf(h, t, kept + [e])
    ensures (if e.Frame? then e.track != t else e.fd != fd) ==>
              SeenBy(h, fd, t, events + [e]) == SeenBy(h, fd, t, kept) && HeaderOf(h, t, events + [e]) == HeaderOf(h, t, kept)
  {
    hide FramePackets, HeaderAfter;
    assert (kept + [e])[..|kept|] == kept && (events + [e])[..|events|] == events;
  }

  /** The client has a receiver on the track in both states or in neither, and it is alive in both or in
      neither and has been sent the same packets. */
  ghost predicate SameForClient(st: State, st': State, fd: int, t: nat) {
    && (Has(st, fd, t) <==> Has(st', fd, t))
    && (Has(st, fd, t) ==>
          && st.clients[fd][t] < |st.objects| && st'.clients[fd][t] < |st'.objects|
          && Object(st, fd, t).sent == Object(st', fd, t).sent
          && Object(st, fd, t).r.alive == Object(st', fd, t).r.alive)
  }

  /** In any two runs with the same requests of client fd and the same frames of track t, whatever
      other clients do and the other track sends in either: the client is sent the same. */
  lemma OthersDoNotMatter(ssrc0: nat, ssrc1: nat, events: seq<Event>, others: seq<Event>, fd: int, t: nat)
    requires ssrc0 < 0x1_0000_0000 && ssrc1 < 0x1_0000_0000 && t < 2
    requires After(Init(ssrc0, ssrc1), events).Some? && After(Init(ssrc0, ssrc1), others).Some?
    requires Relevant(events, fd, t) == Relevant(others, fd, t)
    ensures var st, st' := After(Init(ssrc0, ssrc1), events).value, After(Init(ssrc0, ssrc1), others).value;
            SameForClient(st, st', fd, t) && |st.headers| == 2 && |st'.headers| == 2 && st.headers[t] == st'.headers[t]
  {
    ClientGetsItsFrames(ssrc0, ssrc1, events, fd, t);
    ClientGetsItsFrames(ssrc0, ssrc1, others, fd, t);
    var h := Init(ssrc0, ssrc1).headers[t];
    OnlyRelevantCount(h, fd, t, events);
    OnlyRelevantCount(h, fd, t, others);
    hide After, SeenBy, HeaderOf, Relevant, FirstHeader;
  }

  /** In particular, another client's request or a frame of the other track changes nothing for the
      client. */
  lemma OthersEventChangesNothing(ssrc0: nat, ssrc1: nat, events: seq<Event>, e: Event, fd: int, t: nat)
    requires ssrc0 < 0x1_0000_0000 && ssrc1 < 0x1_0000_0000 && t < 2
    requires After(Init(ssrc0, ssrc1), events).Some? && After(Init(ssrc0, ssrc1), events + [e]).Some?
    requires if e.Frame? then e.track != t else e.fd != fd
    ensures var st, st' := After(Init(ssrc0, ssrc1), events).value, After(Init(ssrc0, ssrc1), events + [e]).value;
            SameForClient(st, st', fd, t)
  {
    assert (events + [e])[..|events|] == events && Relevant(events, fd, t) + [] == Relevant(events, fd, t);
    hide After;
    OthersDoNotMatter(ssrc0, ssrc1, events, events + [e], fd, t);
  }

  /** Packets whose sequence numbers lead up to `next` without a gap, mod 2^16. */
  ghost predicate LeadUpTo(ps: seq<Packet>, next: nat) {
    forall k :: 0 <= k < |ps| ==> ps[k].header.Valid() && next == (ps[k].header.seqNo + (|ps| - k)) % 0x1_0000
  }

  /** A client's packets on a track carry consecutive sequence numbers, mod 2^16, ending right
      before the number that the track's sink goes on with. */
  lemma {:induction false} SequenceIsConsecutive(h: RtpHeader, fd: int, t: nat, events: seq<Event>)
    requires h.Valid()
    ensures HeaderOf(h, t, events).Valid()
    ensures SeenBy(h, fd, t, events).Playing? ==> LeadUpTo(SeenBy(h, fd, t, events).packets, HeaderOf(h, t, events).seqNo)
    decreases |events|
  {
    if events != [] {
      var init, e := events[..|events| - 1], events[|events| - 1];
      SequenceIsConsecutive(h, fd, t, init);
      if e.Frame? && e.track == t {
        var g, s := HeaderOf(h, t, init), SeenBy(h, fd, t, init);
        FrameHeaders(t, g, e.frame, e.after);
        if s.Playing? {
          MorePackets(s.packets, g, FramePackets(t, g, e.frame, e.after));
        }
      }
    }
  }

  lemma MorePackets(ps: seq<Packet>, g: RtpHeader, more: seq<Packet>)
    requires g.Valid() && LeadUpTo(ps, g.seqNo)
    requires forall k :: 0 <= k < |more| ==> more[k].header == g.(seqNo := (g.seqNo + k) % 0x1_0000)
    ensures LeadUpTo(ps + more, (g.seqNo + |more|) % 0x1_0000)
  {
    forall k | 0 <= k < |ps + more|
      ensures (ps + more)[k].header.Valid()
      ensures (g.seqNo + |more|) % 0x1_0000 == ((ps + more)[k].header.seqNo + (|ps + more| - k)) % 0x1_0000
    {
      if k < |ps| {
        AddTwice(ps[k].header.seqNo, |ps| - k, |more|);
      } else {
        AddTwice(g.seqNo, k - |ps|, |more| - (k - |ps|));
      }
    }
  }

  // ----- What a TCP client reads from its connection -----

  function Object(st: State, fd: int, t: nat): Receiving
    requires fd in st.clients && t < |st.clients[fd]| && st.clients[fd][t] < |st.objects|
  {
    st.objects[st.clients[fd][t]]
  }

  /** How a client asked for a track: over TCP on a channel, or over UDP from a socket of the server's
      towards a port of the client's. */
  datatype Transport = Transport(isTcp: bool, socket: int, channel: nat)

  function NextNamed(n: Option<Transport>, fd: int, t: nat, e: Event): Option<Transport> {
    match e
    case Setup(f, track, isTcp, socket, channel) => if f == fd && track == t then Some(Transport(isTcp, socket, channel)) else n
    case Accept(f) => if f == fd then None else n
    case Close(f) => if f == fd then None else n
    case _ => n
  }

  /** What client fd named in its SETUP of track t, on its present connection. */
  function Named(fd: int, t: nat, events: seq<Event>): Option<Transport> {
    if events == [] then None else NextNamed(Named(fd, t, events[..|events| - 1]), fd, t, events[|events| - 1])
  }

  /** The client named this channel, or another with the same low byte, for track t. */
  predicate ReadsOn(fd: int, t: nat, channel: byte, events: seq<Event>) {
    match Named(fd, t, events)
    case None => false
    case Some(n) => n.isTcp && n.channel % 256 == channel
  }

  /** The client named this UDP socket for track t. */
  predicate ReceivesFrom(fd: int, t: nat, socket: int, events: seq<Event>) {
    match Named(fd, t, events)
    case None => false
    case Some(n) => !n.isTcp && n.socket == socket
  }

  /** The client's receiver on the track is what its SETUP named, up to alive. */
  ghost predicate IsNamed(st: State, fd: int, t: nat, n: Option<Transport>) {
    match n
    case None => !Has(st, fd, t)
    case Some(Transport(isTcp, socket, channel)) =>
      && Has(st, fd, t) && st.clients[fd][t] < |st.objects|
      && Object(st, fd, t).r == Receiver(socket, isTcp, channel, Object(st, fd, t).r.alive)
      && (isTcp ==> socket == fd)
  }

  /** SETUP makes a receiver with the transport it names, not alive and without packets. */
  lemma SetupMakes(st: State, fd: int, t: nat, isTcp: bool, socket: int, channel: nat)
    requires Shape(st) && Enabled(st, Setup(fd, t, isTcp, socket, channel))
    ensures var st' := Apply(st, Setup(fd, t, isTcp, socket, channel));
            && Has(st', fd, t) && st'.clients[fd][t] < |st'.objects|
            && Object(st', fd, t) == Receiving(Receiver(socket, isTcp, channel, false), fd, t, [])
            && st'.clients[fd][t] in st'.tracks[t]
  {
  }

  lemma StepKeepsNamed(st: State, e: Event, n: Option<Transport>, fd: int, t: nat)
    requires Shape(st) && Enabled(st, e) && t < 2 && IsNamed(st, fd, t, n)
    ensures IsNamed(Apply(st, e), fd, t, NextNamed(n, fd, t, e))
  {
    hide FramePackets, HeaderAfter, Broadcast;
    assert Has(st, fd, t) ==> Listed(st, fd, t);
    if e.Setup? {
      SetupMakes(st, e.fd, e.track, e.isTcp, e.socket, e.channel);
    }
  }

  /** In every run the receivers are what the clients' SETUPs have named, until the connection closes. */
  lemma {:induction false} NamedIsUsed(ssrc0: nat, ssrc1: nat, events: seq<Event>, fd: int, t: nat)
    requires ssrc0 < 0x1_0000_0000 && ssrc1 < 0x1_0000_0000 && t < 2
    requires After(Init(ssrc0, ssrc1), events).Some?
    ensures IsNamed(After(Init(ssrc0, ssrc1), events).value, fd, t, Named(fd, t, events))
    decreases |events|
  {
    if events != [] {
      var init, e := events[..|events| - 1], events[|events| - 1];
      NamedIsUsed(ssrc0, ssrc1, init, fd, t);
      ClientGetsItsFrames(ssrc0, ssrc1, init, fd, t);
      hide Shape, Agrees, IsNamed, NextNamed, Enabled, Apply;
      StepKeepsNamed(After(Init(ssrc0, ssrc1), init).value, e, Named(fd, t, init), fd, t);
    }
  }

  lemma UsesWhatItNamed(ssrc0: nat, ssrc1: nat, events: seq<Event>, fd: int, t: nat, channel: byte)
    requires ssrc0 < 0x1_0000_0000 && ssrc1 < 0x1_0000_0000 && t < 2
    requires After(Init(ssrc0, ssrc1), events).Some?
    ensures Uses(After(Init(ssrc0, ssrc1), events).value, fd, t, channel) <==> ReadsOn(fd, t, channel, events)
  {
    NamedIsUsed(ssrc0, ssrc1, events, fd, t);
    hide After, Named;
  }

  /** Track t of client fd goes over its TCP connection on this channel. */
  ghost predicate Uses(st: State, fd: int, t: nat, channel: byte) {
    && Has(st, fd, t) && st.clients[fd][t] < |st.objects|
    && Object(st, fd, t).r.isTcp && Object(st, fd, t).r.channel % 256 == channel
  }

  ghost predicate SentOk(st: State, fd: int, t: nat) {
    Has(st, fd, t) ==> st.clients[fd][t] < |st.objects| && AllValid(Object(st, fd, t).sent)
  }

  /** What the client reads on a channel: the packets of the track that uses it alone, nothing if
      no track uses it. (Two tracks on one channel are mixed.) */
  ghost predicate ChannelOk(st: State, fd: int, c: byte, packets: seq<seq<byte>>)
    requires SentOk(st, fd, 0) && SentOk(st, fd, 1)
  {
    && (Uses(st, fd, 0, c) && !Uses(st, fd, 1, c) ==> packets == WireAll(Object(st, fd, 0).sent))
    && (Uses(st, fd, 1, c) && !Uses(st, fd, 0, c) ==> packets == WireAll(Object(st, fd, 1).sent))
    && (!Uses(st, fd, 0, c) && !Uses(st, fd, 1, c) ==> packets == [])
  }

  ghost predicate StreamOk(st: State, fd: int) {
    && SentOk(st, fd, 0) && SentOk(st, fd, 1)
    && Demux(st.wires.StreamOf(fd)).Some?
    && forall c: byte :: ChannelOk(st, fd, c, OnChannel(Demux(st.wires.StreamOf(fd)).value, c))
  }

  /** An event that leaves the client's objects and stream alone, up to alive. */
  lemma UnchangedStream(st: State, st': State, fd: int)
    requires StreamOk(st, fd)
    requires st'.wires.StreamOf(fd) == st.wires.StreamOf(fd)
    requires fd in st.clients && fd in st'.clients && st'.clients[fd] == st.clients[fd]
    requires forall t: nat :: Has(st, fd, t) ==>
               && st.clients[fd][t] < |st.objects| && st.clients[fd][t] < |st'.objects|
               && Object(st', fd, t).r.isTcp == Object(st, fd, t).r.isTcp
               && Object(st', fd, t).r.channel == Object(st, fd, t).r.channel
               && Object(st', fd, t).sent == Object(st, fd, t).sent
    ensures StreamOk(st', fd)
  {
    assert SentOk(st', fd, 0) && SentOk(st', fd, 1);
    forall c: byte ensures ChannelOk(st', fd, c, OnChannel(Demux(st'.wires.StreamOf(fd)).value, c)) {
      ChannelStays(st, st', fd, c, OnChannel(Demux(st.wires.StreamOf(fd)).value, c));
    }
  }

  lemma AcceptStream(st: State, e: Event, fd: int)
    requires Shape(st) && Enabled(st, e) && e.Accept? && (fd in st.clients ==> StreamOk(st, fd))
    requires fd in Apply(st, e).clients
    ensures StreamOk(Apply(st, e), fd)
  {
    var st' := Apply(st, e);
    if fd == e.fd {
      assert st'.wires.StreamOf(fd) == [];
    } else {
      assert forall t: nat :: Has(st, fd, t) ==> Listed(st, fd, t);
      assert SentOk(st, fd, 0) && SentOk(st, fd, 1);
      UnchangedStream(st, st', fd);
    }
  }

  lemma SetupStream(st: State, e: Event, fd: int)
    requires Shape(st) && Enabled(st, e) && e.Setup? && fd in st.clients && StreamOk(st, fd)
    ensures StreamOk(Apply(st, e), fd)
  {
    var st' := Apply(st, e);
    assert forall t: nat :: Has(st, fd, t) ==> Listed(st, fd, t);
    if fd == e.fd {
      SetupOwnStream(st, st', fd, e.track);
    } else {
      UnchangedStream(st, st', fd);
    }
  }

  lemma SetupOwnStream(st: State, st': State, fd: int, t: nat)
    requires StreamOk(st, fd) && st'.wires == st.wires
    requires fd in st.clients && fd in st'.clients && t < 2 && |st.clients[fd]| == t && |st'.clients[fd]| == t + 1
    requires st.clients[fd] <= st'.clients[fd] && st.objects <= st'.objects
    requires st'.clients[fd][t] < |st'.objects| && Object(st', fd, t).sent == []
    ensures StreamOk(st', fd)
  {
    assert SentOk(st', fd, 0) && SentOk(st', fd, 1);
    forall c: byte ensures ChannelOk(st', fd, c, OnChannel(Demux(st'.wires.StreamOf(fd)).value, c)) {
      var l := OnChannel(Demux(st.wires.StreamOf(fd)).value, c);
      assert ChannelOk(st, fd, c, l);
      hide Demux, OnChannel;
      assert t == 1 ==> Object(st', fd, 0) == Object(st, fd, 0);
    }
  }

  lemma FrameStream(st: State, e: Event, fd: int)
    requires Shape(st) && Enabled(st, e) && e.Frame? && fd in st.clients && StreamOk(st, fd)
    ensures StreamOk(Apply(st, e), fd)
  {
    var t, h := e.track, st.headers[e.track];
    FrameHeaders(t, h, e.frame, e.after);
    var ps := FramePackets(t, h, e.frame, e.after);
    assert AllValid(ps) && AllShort(ps);
    hide FramePackets, HeaderAfter;
    var rs := Receivers(st, st.tracks[t]);
    var st' := Apply(st, e);
    var i := ReceiverIndex(st, fd, t);
    BroadcastDemux(st.wires, rs, ps, fd, i);
    SentToClient(st, st', fd, t, if i < |rs| then Some(rs[i].channel % 256) else None, ps);
  }

  /** Where client fd's live TCP receiver is in the track's list; the length if it has none. */
  lemma ReceiverIndex(st: State, fd: int, t: nat) returns (i: nat)
    requires Shape(st) && t < 2 && fd in st.clients
    ensures OnlyReaches(Receivers(st, st.tracks[t]), fd, i)
    ensures if Has(st, fd, t) && Object(st, fd, t).r.alive && Object(st, fd, t).r.isTcp
            then i < |st.tracks[t]| && st.tracks[t][i] == st.clients[fd][t]
            else i == |st.tracks[t]|
  {
    var ids := st.tracks[t];
    var rs := Receivers(st, ids);
    assert Has(st, fd, t) ==> Listed(st, fd, t);
    if Has(st, fd, t) && Object(st, fd, t).r.alive && Object(st, fd, t).r.isTcp {
      i :| i < |ids| && ids[i] == st.clients[fd][t];
    } else {
      i := |ids|;
    }
    forall j | 0 <= j < |rs| ensures Reaches(rs[j], fd) <==> j == i {
      assert ids[j] in ids && Owned(st, t, ids[j]);
      assert Listed(st, st.objects[ids[j]].client, t);
    }
  }

  /** Passing packets on along track t: only `sent` of the client's live receiver there grows. */
  ghost predicate Grows(st: State, st': State, fd: int, t: nat, ps: seq<Packet>, u: nat) {
    Has(st, fd, u) ==>
      && u < 2 && Has(st', fd, u)
      && st.clients[fd][u] < |st.objects| && st'.clients[fd][u] == st.clients[fd][u] < |st'.objects|
      && Object(st', fd, u).r == Object(st, fd, u).r
      && Object(st', fd, u).sent == Object(st, fd, u).sent + if u == t && Object(st, fd, u).r.alive then ps else []
  }

  lemma PassedOnGrows(st: State, st': State, fd: int, t: nat, ps: seq<Packet>, u: nat)
    requires Shape(st) && t < 2 && fd in st.clients
    requires st'.clients == st.clients && st'.objects == PassedOn(st, t, ps)
    ensures Grows(st, st', fd, t, ps, u)
  {
    if Has(st, fd, u) {
      assert Listed(st, fd, u);
      if st.clients[fd][u] in st.tracks[t] {
        assert Owned(st, t, st.clients[fd][u]);
      }
      assert Object(st, fd, u).sent + [] == Object(st, fd, u).sent;
    }
  }

  lemma GrowsSentOk(st: State, st': State, fd: int, t: nat, ps: seq<Packet>, u: nat)
    requires Grows(st, st', fd, t, ps, u) && SentOk(st, fd, u) && AllValid(ps) && (Has(st', fd, u) ==> Has(st, fd, u))
    ensures SentOk(st', fd, u)
    ensures Has(st, fd, u) && u == t && Object(st, fd, u).r.alive ==>
              WireAll(Object(st', fd, u).sent) == WireAll(Object(st, fd, u).sent) + WireAll(ps)
    ensures Has(st, fd, u) && !(u == t && Object(st, fd, u).r.alive) ==> Object(st', fd, u).sent == Object(st, fd, u).sent
  {
    if Has(st, fd, u) {
      WireAllAppend(Object(st, fd, u).sent, ps);
      assert Object(st, fd, u).sent + [] == Object(st, fd, u).sent;
    }
  }

  /** Both of the client's tracks after the packets have been passed on along track t. */
  ghost predicate BothGrow(st: State, st': State, fd: int, t: nat, ps: seq<Packet>) {
    && t < 2 && AllValid(ps) && fd in st.clients
    && SentOk(st, fd, 0) && SentOk(st, fd, 1) && SentOk(st', fd, 0) && SentOk(st', fd, 1)
    && (Has(st', fd, 0) <==> Has(st, fd, 0)) && (Has(st', fd, 1) <==> Has(st, fd, 1))
    && Grows(st, st', fd, t, ps, 0) && Grows(st, st', fd, t, ps, 1)
  }

  lemma PassedOnToClient(st: State, st': State, fd: int, t: nat, ps: seq<Packet>)
    requires Shape(st) && t < 2 && fd in st.clients
    requires st'.clients == st.clients && st'.objects == PassedOn(st, t, ps)
    requires SentOk(st, fd, 0) && SentOk(st, fd, 1) && AllValid(ps)
    ensures BothGrow(st, st', fd, t, ps)
  {
    PassedOnGrows(st, st', fd, t, ps, 0);
    PassedOnGrows(st, st', fd, t, ps, 1);
    hide PassedOn, WireAll, AllValid, Grows, SentOk;
    GrowsSentOk(st, st', fd, t, ps, 0);
    GrowsSentOk(st, st', fd, t, ps, 1);
  }

  /** On every channel the stream grows by what is passed on there. */
  lemma ChannelGrows(st: State, st': State, fd: int, t: nat, channel: Option<byte>, ps: seq<Packet>, c: byte, l: seq<seq<byte>>)
    requires BothGrow(st, st', fd, t, ps) && ChannelOk(st, fd, c, l)
    requires match channel
             case Some(b) => Uses(st, fd, t, b) && Object(st, fd, t).r.alive
             case None => forall b: byte :: Uses(st, fd, t, b) ==> !Object(st, fd, t).r.alive
    ensures ChannelOk(st', fd, c, l + if channel == Some(c) then WireAll(ps) else [])
  {
    hide WireAll, AllValid, SentOk, Shape;
    GrowsSentOk(st, st', fd, t, ps, 0);
    GrowsSentOk(st, st', fd, t, ps, 1);
    assert l + [] == l;
    assert Uses(st', fd, 0, c) == Uses(st, fd, 0, c) && Uses(st', fd, 1, c) == Uses(st, fd, 1, c);
    if t == 0 {
    } else {
    }
  }

  lemma SentToClient(st: State, st': State, fd: int, t: nat, channel: Option<byte>, ps: seq<Packet>)
    requires Shape(st) && t < 2 && fd in st.clients && StreamOk(st, fd) && AllValid(ps)
    requires match channel
             case Some(b) => Uses(st, fd, t, b) && Object(st, fd, t).r.alive
             case None => forall b: byte :: Uses(st, fd, t, b) ==> !Object(st, fd, t).r.alive
    requires st'.clients == st.clients && st'.objects == PassedOn(st, t, ps)
    requires Extends(st.wires.StreamOf(fd), st'.wires.StreamOf(fd), channel, WireAll(ps))
    ensures StreamOk(st', fd)
  {
    PassedOnToClient(st, st', fd, t, ps);
    hide Shape, WireAll, Demux, OnChannel, AllValid, Grows, Uses, ChannelOk, PassedOn;
    forall c: byte ensures ChannelOk(st', fd, c, OnChannel(Demux(st'.wires.StreamOf(fd)).value, c)) {
      ChannelGrows(st, st', fd, t, channel, ps, c, OnChannel(Demux(st.wires.StreamOf(fd)).value, c));
    }
  }

  lemma ChannelStays(st: State, st': State, fd: int, c: byte, l: seq<seq<byte>>)
    requires SentOk(st, fd, 0) && SentOk(st, fd, 1) && SentOk(st', fd, 0) && SentOk(st', fd, 1)
    requires ChannelOk(st, fd, c, l) && fd in st.clients && fd in st'.clients && st'.clients[fd] == st.clients[fd]
    requires forall t: nat :: Has(st, fd, t) ==>
               && st.clients[fd][t] < |st.objects| && st.clients[fd][t] < |st'.objects|
               && Object(st', fd, t).r.isTcp == Object(st, fd, t).r.isTcp
               && Object(st', fd, t).r.channel == Object(st, fd, t).r.channel
               && (Object(st, fd, t).r.isTcp ==> Object(st', fd, t).sent == Object(st, fd, t).sent)
    ensures ChannelOk(st', fd, c, l)
  {
    assert Has(st', fd, 0) <==> Has(st, fd, 0);
    assert Has(st', fd, 1) <==> Has(st, fd, 1);
  }

  lemma RequestStream(st: State, e: Event, fd: int)
    requires Shape(st) && Enabled(st, e) && (e.Play? || e.Close?) && fd in st.clients && StreamOk(st, fd)
    requires fd in Apply(st, e).clients
    ensures StreamOk(Apply(st, e), fd)
  {
    assert forall t: nat :: Has(st, fd, t) ==> Listed(st, fd, t);
    assert SentOk(st, fd, 0) && SentOk(st, fd, 1);
    UnchangedStream(st, Apply(st, e), fd);
  }

  lemma StepStream(st: State, e: Event, fd: int)
    requires Shape(st) && Enabled(st, e) && (fd in st.clients ==> StreamOk(st, fd))
    requires fd in Apply(st, e).clients
    ensures StreamOk(Apply(st, e), fd)
  {
    assert !e.Accept? ==> fd in st.clients;
    hide *;
    match e
    case Accept(_) => AcceptStream(st, e, fd);
    case Setup(_, _, _, _, _) => SetupStream(st, e, fd);
    case Frame(_, _, _) => FrameStream(st, e, fd);
    case _ => RequestStream(st, e, fd);
  }

  lemma {:induction false} StreamsStayOk(ssrc0: nat, ssrc1: nat, events: seq<Event>, fd: int)
    requires ssrc0 < 0x1_0000_0000 && ssrc1 < 0x1_0000_0000
    requires After(Init(ssrc0, ssrc1), events).Some?
    requires fd in After(Init(ssrc0, ssrc1), events).value.clients
    ensures StreamOk(After(Init(ssrc0, ssrc1), events).value, fd)
    decreases |events|
  {
    if events != [] {
      var init, e := events[..|events| - 1], events[|events| - 1];
      var mid := After(Init(ssrc0, ssrc1), init).value;
      ClientGetsItsFrames(ssrc0, ssrc1, init, fd, 0);
      if fd in mid.clients {
        StreamsStayOk(ssrc0, ssrc1, init, fd);
      }
      StepStream(mid, e, fd);
    }
  }

  /** What a client has been sent, as bytes; nothing unless it is playing. */
  function SeenOnWire(s: Seen): seq<seq<byte>>
    requires s.Playing? ==> AllValid(s.packets)
  {
    if s.Playing? then WireAll(s.packets) else []
  }

  lemma ReadsWhatItHasSeen(st: State, seen: Seen, fd: int, t: nat, channel: byte)
    requires t < 2 && StreamOk(st, fd) && Agrees(st, seen, fd, t)
    requires Uses(st, fd, t, channel) && !Uses(st, fd, 1 - t, channel)
    ensures !seen.Absent?
    ensures seen.Playing? ==> AllValid(seen.packets)
    ensures Demux(st.wires.StreamOf(fd)).Some?
    ensures OnChannel(Demux(st.wires.StreamOf(fd)).value, channel) == SeenOnWire(seen)
  {
    assert SentOk(st, fd, t);
    assert ChannelOk(st, fd, channel, OnChannel(Demux(st.wires.StreamOf(fd)).value, channel));
    hide Demux, OnChannel;
  }

  /** In every run, a client that reads its TCP connection as interleaved frames finds, on a
      channel that it named for one of its tracks alone, exactly what its own requests and that track's
      frames call for: nothing before PLAY, then all packets of all frames, whole and in order. */
  lemma ClientReadsItsTracks(ssrc0: nat, ssrc1: nat, events: seq<Event>, fd: int, t: nat, channel: byte)
    requires ssrc0 < 0x1_0000_0000 && ssrc1 < 0x1_0000_0000 && t < 2
    requires After(Init(ssrc0, ssrc1), events).Some?
    requires ReadsOn(fd, t, channel, events) && !ReadsOn(fd, 1 - t, channel, events)
    ensures var st := After(Init(ssrc0, ssrc1), events).value;
            var seen := SeenBy(Init(ssrc0, ssrc1).headers[t], fd, t, events);
            && !seen.Absent?
            && (seen.Playing? ==> AllValid(seen.packets))
            && Demux(st.wires.StreamOf(fd)).Some?
            && OnChannel(Demux(st.wires.StreamOf(fd)).value, channel) == SeenOnWire(seen)
  {
    var st := After(Init(ssrc0, ssrc1), events).value;
    ClientGetsItsFrames(ssrc0, ssrc1, events, fd, t);
    UsesWhatItNamed(ssrc0, ssrc1, events, fd, t, channel);
    UsesWhatItNamed(ssrc0, ssrc1, events, fd, 1 - t, channel);
    StreamsStayOk(ssrc0, ssrc1, events, fd);
    assert fd in st.clients;
    ReadsWhatItHasSeen(st, SeenBy(Init(ssrc0, ssrc1).headers[t], fd, t, events), fd, t, channel);
    hide *;
  }
}
