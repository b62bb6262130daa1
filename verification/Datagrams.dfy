/** What UDP clients are sent over whole runs of the machine in module Streaming. */
module Datagrams {
  import opened Bytes
  import opened Rtp
  import opened Delivery
  import opened Streaming

  /** Object i sends from the UDP socket s. */
  predicate Owns(st: State, i: nat, s: int) {
    i < |st.objects| && !st.objects[i].r.isTcp && st.objects[i].r.fd == s
  }

  ghost predicate AllSentValid(st: State) {
    forall i :: 0 <= i < |st.objects| ==> AllValid(st.objects[i].sent)
  }

  /** A socket has at most one owner, whose packets are what has been sent from it. */
  ghost predicate SocketOk(st: State, s: int)
    requires AllSentValid(st)
  {
    && (forall i: nat, j: nat :: Owns(st, i, s) && Owns(st, j, s) ==> i == j)
    && (forall i: nat :: Owns(st, i, s) ==> st.wires.DatagramsOf(s) == WireAll(st.objects[i].sent))
    && ((forall i: nat :: !Owns(st, i, s)) ==> st.wires.DatagramsOf(s) == [])
  }

  ghost predicate SocketsOk(st: State) {
    AllSentValid(st) && forall s: int :: SocketOk(st, s)
  }

  /** Events that send nothing and keep the objects up to alive. */
  lemma RequestSockets(st: State, e: Event)
    requires Shape(st) && Enabled(st, e) && SocketsOk(st) && (e.Accept? || e.Play? || e.Close?)
    ensures SocketsOk(Apply(st, e))
  {
    var st' := Apply(st, e);
    assert |st'.objects| == |st.objects| && st'.wires.datagrams == st.wires.datagrams;
    assert forall i :: 0 <= i < |st.objects| ==>
      st'.objects[i].sent == st.objects[i].sent && st'.objects[i].r.fd == st.objects[i].r.fd && st'.objects[i].r.isTcp == st.objects[i].r.isTcp;
    hide Apply, Shape, Enabled, WireAll;
    forall s: int ensures SocketOk(st', s) {
      assert SocketOk(st, s);
      assert forall i: nat :: Owns(st', i, s) == Owns(st, i, s);
    }
  }

  lemma SetupSockets(st: State, e: Event)
    requires Shape(st) && Enabled(st, e) && SocketsOk(st) && e.Setup?
    ensures SocketsOk(Apply(st, e))
  {
    var st', id := Apply(st, e), |st.objects|;
    assert st'.objects[..id] == st.objects && st'.wires == st.wires && |st'.objects| == id + 1;
    assert st'.objects[id].sent == [] && (st'.objects[id].r.isTcp || forall i: nat :: !Owns(st, i, st'.objects[id].r.fd));
    hide Apply, Shape, Enabled;
    assert forall i :: 0 <= i < id ==> st'.objects[i] == st.objects[i];
    forall s: int ensures SocketOk(st', s) {
      assert SocketOk(st, s);
      assert forall i: nat :: i < id ==> Owns(st', i, s) == Owns(st, i, s);
      if Owns(st', id, s) {
        assert forall i: nat :: !Owns(st, i, s);
      }
    }
  }

  /** Where in the track's list the live owner of a socket is; past the end if it is not there. */
  lemma OwnerIndex(st: State, t: nat, s: int) returns (k: nat)
    requires Shape(st) && t < 2 && AllSentValid(st) && SocketOk(st, s)
    ensures OnlyReachesUdp(Receivers(st, st.tracks[t]), s, k)
    ensures forall i: nat :: Owns(st, i, s) ==>
              (k < |st.tracks[t]| <==> st.objects[i].r.alive && i in st.tracks[t])
    ensures k < |st.tracks[t]| ==> exists i: nat :: Owns(st, i, s)
  {
    var ids := st.tracks[t];
    var rs := Receivers(st, ids);
    assert Distinct(ids);
    hide Shape, Receivers, WireAll;
    assert forall j :: 0 <= j < |ids| ==> ids[j] in ids && (ReachesUdp(rs[j], s) <==> Owns(st, ids[j], s) && st.objects[ids[j]].r.alive);
    if i: nat :| Owns(st, i, s) && st.objects[i].r.alive && i in ids {
      k :| 0 <= k < |ids| && ids[k] == i;
    } else {
      k := |ids|;
    }
  }

  lemma PassedOnValid(st: State, st': State, t: nat, ps: seq<Packet>)
    requires t < |st.tracks| && AllSentValid(st) && AllValid(ps) && st'.objects == PassedOn(st, t, ps)
    ensures AllSentValid(st')
  {
  }

  lemma FrameSocket(st: State, st': State, t: nat, ps: seq<Packet>, s: int)
    requires Shape(st) && t < 2 && AllSentValid(st) && SocketOk(st, s) && AllValid(ps) && AllSentValid(st')
    requires st'.objects == PassedOn(st, t, ps)
    requires st'.wires == Broadcast(st.wires, Receivers(st, st.tracks[t]), ps)
    ensures SocketOk(st', s)
  {
    var k := OwnerIndex(st, t, s);
    BroadcastDatagrams(st.wires, Receivers(st, st.tracks[t]), ps, s, k);
    var listed := k < |st.tracks[t]|;
    hide Shape, Broadcast, Receivers, WireAll, SocketOk, AllSentValid, OnlyReachesUdp;
    assert forall i: nat :: Owns(st', i, s) == Owns(st, i, s);
    SocketGrows(st, st', s, listed, ps);
  }

  /** The owner of the socket, if any, passes on the packets that are sent from it. */
  lemma SocketGrows(st: State, st': State, s: int, listed: bool, ps: seq<Packet>)
    requires AllSentValid(st) && AllSentValid(st') && AllValid(ps) && SocketOk(st, s) && |st'.objects| == |st.objects|
    requires forall i: nat :: Owns(st', i, s) == Owns(st, i, s)
    requires forall i: nat :: Owns(st, i, s) ==>
               st'.objects[i].sent == if listed then st.objects[i].sent + ps else st.objects[i].sent
    requires listed ==> exists i: nat :: Owns(st, i, s)
    requires st'.wires.DatagramsOf(s) == st.wires.DatagramsOf(s) + if listed then WireAll(ps) else []
    ensures SocketOk(st', s)
  {
    if i: nat :| Owns(st, i, s) {
      WireAllAppend(st.objects[i].sent, ps);
      hide WireAll;
    }
  }

  lemma FrameSockets(st: State, e: Event)
    requires Shape(st) && Enabled(st, e) && SocketsOk(st) && e.Frame?
    ensures SocketsOk(Apply(st, e))
  {
    var st', h := Apply(st, e), st.headers[e.track];
    FrameHeaders(e.track, h, e.frame, e.after);
    var ps := FramePackets(e.track, h, e.frame, e.after);
    PassedOnValid(st, st', e.track, ps);
    forall s: int ensures SocketOk(st', s) {
      FrameSocket(st, st', e.track, ps, s);
    }
  }

  lemma {:induction false} SocketsStayOk(ssrc0: nat, ssrc1: nat, events: seq<Event>)
    requires ssrc0 < 0x1_0000_0000 && ssrc1 < 0x1_0000_0000
    requires After(Init(ssrc0, ssrc1), events).Some?
    ensures SocketsOk(After(Init(ssrc0, ssrc1), events).value)
    decreases |events|
  {
    if events != [] {
      var init, e := events[..|events| - 1], events[|events| - 1];
      var mid := After(Init(ssrc0, ssrc1), init).value;
      ClientGetsItsFrames(ssrc0, ssrc1, init, 0, 0);
      SocketsStayOk(ssrc0, ssrc1, init);
      hide Shape, SocketsOk, Apply, Enabled;
      match e
      case Setup(_, _, _, _, _) => SetupSockets(mid, e);
      case Frame(_, _, _) => FrameSockets(mid, e);
      case _ => RequestSockets(mid, e);
    }
  }

  /** In every run, the datagrams sent from the UDP socket of a client's SETUP are exactly what its own requests
      and that track's frames call for: nothing before PLAY, then one datagram per packet, all
      packets of all frames in order. */
  lemma ClientIsSentItsTrack(ssrc0: nat, ssrc1: nat, events: seq<Event>, fd: int, t: nat, socket: int)
    requires ssrc0 < 0x1_0000_0000 && ssrc1 < 0x1_0000_0000 && t < 2
    requires After(Init(ssrc0, ssrc1), events).Some? && ReceivesFrom(fd, t, socket, events)
    ensures var st := After(Init(ssrc0, ssrc1), events).value;
            var seen := SeenBy(Init(ssrc0, ssrc1).headers[t], fd, t, events);
            && !seen.Absent?
            && (seen.Playing? ==> AllValid(seen.packets))
            && st.wires.DatagramsOf(socket) == SeenOnWire(seen)
  {
    var st := After(Init(ssrc0, ssrc1), events).value;
    ClientGetsItsFrames(ssrc0, ssrc1, events, fd, t);
    NamedIsUsed(ssrc0, ssrc1, events, fd, t);
    SocketsStayOk(ssrc0, ssrc1, events);
    SocketHasSeen(st, SeenBy(Init(ssrc0, ssrc1).headers[t], fd, t, events), fd, t);
    hide *;
  }

  lemma SocketHasSeen(st: State, seen: Seen, fd: int, t: nat)
    requires SocketsOk(st) && Agrees(st, seen, fd, t)
    requires Has(st, fd, t) && st.clients[fd][t] < |st.objects| && !Object(st, fd, t).r.isTcp
    ensures !seen.Absent? && (seen.Playing? ==> AllValid(seen.packets))
    ensures st.wires.DatagramsOf(Object(st, fd, t).r.fd) == SeenOnWire(seen)
  {
    var s := Object(st, fd, t).r.fd;
    assert SocketOk(st, s) && Owns(st, st.clients[fd][t], s);
  }
}
