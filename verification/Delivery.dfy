/** Fan-out of packets to receivers, as values: what each socket has been given so far. */
module Delivery {
  import opened Bytes
  import opened Rtp

  /** An RtpConnection as its sender sees it. */
  datatype Receiver = Receiver(fd: int, isTcp: bool, channel: nat, alive: bool)

  /** The bytes written to every TCP socket and the datagrams sent from every UDP socket. */
  datatype Wires = Wires(streams: map<int, seq<byte>>, datagrams: map<int, seq<seq<byte>>>)
  {
    function StreamOf(fd: int): seq<byte> {
      if fd in streams then streams[fd] else []
    }

    function DatagramsOf(fd: int): seq<seq<byte>> {
      if fd in datagrams then datagrams[fd] else []
    }
  }

  /** RtpConnection::SendFrame */
  function Deliver(w: Wires, r: Receiver, packet: seq<byte>): Wires {
    if !r.alive then w
    else if r.isTcp then w.(streams := w.streams[r.fd := w.StreamOf(r.fd) + Framed(r.channel, packet)])
    else w.(datagrams := w.datagrams[r.fd := w.DatagramsOf(r.fd) + [packet]])
  }

  /** The loop over rtp_conns_ in handleSessionSend. */
  function FanOut(w: Wires, rs: seq<Receiver>, packet: seq<byte>): Wires {
    if rs == [] then w else Deliver(FanOut(w, rs[..|rs| - 1], packet), rs[|rs| - 1], packet)
  }

  ghost predicate AllValid(ps: seq<Packet>) {
    forall k :: 0 <= k < |ps| ==> ps[k].header.Valid()
  }

  /** Several packets, one after the other. */
  function Broadcast(w: Wires, rs: seq<Receiver>, ps: seq<Packet>): Wires
    requires AllValid(ps)
  {
    if ps == [] then w else FanOut(Broadcast(w, rs, ps[..|ps| - 1]), rs, WirePacket(ps[|ps| - 1]))
  }

  lemma BroadcastOneMore(w: Wires, rs: seq<Receiver>, ps: seq<Packet>, k: nat)
    requires AllValid(ps) && k < |ps|
    ensures Broadcast(w, rs, ps[..k + 1]) == FanOut(Broadcast(w, rs, ps[..k]), rs, WirePacket(ps[k]))
  {
    assert ps[..k + 1][..k] == ps[..k];
  }

  // ----- What one TCP client finds in its stream -----

  predicate Reaches(r: Receiver, fd: int) {
    r.alive && r.isTcp && r.fd == fd
  }

  /** Receiver i is the only live one on the TCP socket fd; with i == |rs| there is none. */
  ghost predicate OnlyReaches(rs: seq<Receiver>, fd: int, i: nat) {
    forall j :: 0 <= j < |rs| ==> (Reaches(rs[j], fd) <==> j == i)
  }

  lemma {:induction false} FanOutStream(w: Wires, rs: seq<Receiver>, packet: seq<byte>, fd: int, i: nat)
    requires OnlyReaches(rs, fd, i)
    ensures FanOut(w, rs, packet).StreamOf(fd)
         == w.StreamOf(fd) + if i < |rs| then Framed(rs[i].channel, packet) else []
    decreases |rs|
  {
    hide Framed;
    if rs != [] {
      var init, last := rs[..|rs| - 1], rs[|rs| - 1];
      assert OnlyReaches(init, fd, i);
      FanOutStream(w, init, packet, fd, i);
      assert Reaches(last, fd) <==> i == |rs| - 1;
      DeliverStream(FanOut(w, init, packet), last, packet, fd);
      hide *;
      if i < |rs| - 1 {
        assert rs[i] == init[i];
      }
    }
  }

  lemma DeliverStream(w: Wires, r: Receiver, packet: seq<byte>, fd: int)
    ensures Deliver(w, r, packet).StreamOf(fd)
         == if Reaches(r, fd) then w.StreamOf(fd) + Framed(r.channel, packet) else w.StreamOf(fd)
  {
  }

  /** The packets as they go on the wire. */
  function WireAll(ps: seq<Packet>): seq<seq<byte>>
    requires AllValid(ps)
  {
    if ps == [] then [] else WireAll(ps[..|ps| - 1]) + [WirePacket(ps[|ps| - 1])]
  }

  lemma {:induction false} WireAllAppend(ps: seq<Packet>, qs: seq<Packet>)
    requires AllValid(ps) && AllValid(qs)
    ensures AllValid(ps + qs) && WireAll(ps + qs) == WireAll(ps) + WireAll(qs)
    decreases |qs|
  {
    if qs == [] {
      assert ps + qs == ps;
    } else {
      var init := qs[..|qs| - 1];
      WireAllAppend(ps, init);
      hide WirePacket;
      var last := [WirePacket(qs[|qs| - 1])];
      assert (ps + qs)[..|ps + qs| - 1] == ps + init && (ps + qs)[|ps + qs| - 1] == qs[|qs| - 1];
      assert WireAll(ps + qs) == WireAll(ps + init) + last;
      assert WireAll(ps) + WireAll(init) + last == WireAll(ps) + (WireAll(init) + last);
    }
  }

  ghost predicate AllShort(ps: seq<Packet>) {
    forall k :: 0 <= k < |ps| ==> |ps[k].payload| <= PAYLOAD_ROOM
  }

  /** Stream s' holds stream s's packets on every channel, and behind them `more` on one. */
  ghost predicate Extends(s: seq<byte>, s': seq<byte>, channel: Option<byte>, more: seq<seq<byte>>) {
    && Demux(s).Some? && Demux(s').Some?
    && forall c: byte ::
         OnChannel(Demux(s').value, c) == OnChannel(Demux(s).value, c) + (if channel == Some(c) then more else [])
  }

  lemma ExtendsOneMore(s: seq<byte>, s': seq<byte>, channel: nat, more: seq<seq<byte>>, packet: seq<byte>)
    requires Extends(s, s', Some(channel % 256), more) && |packet| < 0x1_0000
    ensures Extends(s, s' + Framed(channel, packet), Some(channel % 256), more + [packet])
  {
    var b: byte := channel % 256;
    DemuxAppend(s', channel, packet);
    forall c: byte
      ensures OnChannel(Demux(s' + Framed(channel, packet)).value, c)
           == OnChannel(Demux(s).value, c) + (if b == c then more + [packet] else [])
    {
      assert OnChannel(Demux(s').value, c) == OnChannel(Demux(s).value, c) + (if b == c then more else []);
      hide *;
      OnChannelAppend(Demux(s').value, (b, packet), c);
      AppendBehind(OnChannel(Demux(s).value, c), more, packet);
    }
  }

  lemma AppendBehind<T>(s: seq<T>, more: seq<T>, x: T)
    ensures s + (more + [x]) == s + more + [x] && s + [] == s && s + [] + [] == s
  {
  }

  lemma ExtendsNothing(s: seq<byte>, channel: Option<byte>)
    requires Demux(s).Some?
    ensures Extends(s, s, channel, [])
  {
    assert forall c: byte :: OnChannel(Demux(s).value, c) + [] == OnChannel(Demux(s).value, c);
  }

  /** Broadcasting adds the packets, whole and in order, to the channel of the client's live
      receiver and to no other channel of its stream. */
  lemma {:induction false} BroadcastDemux(w: Wires, rs: seq<Receiver>, ps: seq<Packet>, fd: int, i: nat)
    requires OnlyReaches(rs, fd, i) && AllValid(ps) && AllShort(ps)
    requires Demux(w.StreamOf(fd)).Some?
    ensures Extends(w.StreamOf(fd), Broadcast(w, rs, ps).StreamOf(fd),
                    if i < |rs| then Some(rs[i].channel % 256) else None, WireAll(ps))
    decreases |ps|
  {
    var channel: Option<byte> := if i < |rs| then Some(rs[i].channel % 256) else None;
    if ps == [] {
      ExtendsNothing(w.StreamOf(fd), channel);
    } else {
      var init, packet := ps[..|ps| - 1], WirePacket(ps[|ps| - 1]);
      BroadcastDemux(w, rs, init, fd, i);
      var w1 := Broadcast(w, rs, init);
      FanOutStream(w1, rs, packet, fd, i);
      if i < |rs| {
        hide Demux, Framed, FanOut, Extends;
        ExtendsOneMore(w.StreamOf(fd), w1.StreamOf(fd), rs[i].channel, WireAll(init), packet);
      } else {
        assert w1.StreamOf(fd) + [] == w1.StreamOf(fd);
      }
    }
  }

  // ----- What one UDP client is sent -----

  predicate ReachesUdp(r: Receiver, fd: int) {
    r.alive && !r.isTcp && r.fd == fd
  }

  /** Receiver i is the only live one on the UDP socket fd; with i == |rs| there is none. */
  ghost predicate OnlyReachesUdp(rs: seq<Receiver>, fd: int, i: nat) {
    forall j :: 0 <= j < |rs| ==> (ReachesUdp(rs[j], fd) <==> j == i)
  }

  lemma {:induction false} FanOutDatagrams(w: Wires, rs: seq<Receiver>, packet: seq<byte>, fd: int, i: nat)
    requires OnlyReachesUdp(rs, fd, i)
    ensures FanOut(w, rs, packet).DatagramsOf(fd) == w.DatagramsOf(fd) + if i < |rs| then [packet] else []
    decreases |rs|
  {
    hide Framed;
    if rs != [] {
      var init, last := rs[..|rs| - 1], rs[|rs| - 1];
      assert OnlyReachesUdp(init, fd, i);
      FanOutDatagrams(w, init, packet, fd, i);
      assert ReachesUdp(last, fd) <==> i == |rs| - 1;
      DeliverDatagram(FanOut(w, init, packet), last, packet, fd);
    }
  }

  lemma DeliverDatagram(w: Wires, r: Receiver, packet: seq<byte>, fd: int)
    ensures Deliver(w, r, packet).DatagramsOf(fd) == w.DatagramsOf(fd) + if ReachesUdp(r, fd) then [packet] else []
  {
    hide Framed;
  }

  /** Broadcasting sends the packets, one datagram each and in order, to the UDP socket of a live
      receiver, whatever prefixes the TCP receivers before it had written; and none to other
      sockets. */
  lemma {:induction false} BroadcastDatagrams(w: Wires, rs: seq<Receiver>, ps: seq<Packet>, fd: int, i: nat)
    requires OnlyReachesUdp(rs, fd, i) && AllValid(ps)
    ensures Broadcast(w, rs, ps).DatagramsOf(fd) == w.DatagramsOf(fd) + if i < |rs| then WireAll(ps) else []
    decreases |ps|
  {
    if ps != [] {
      var init, packet := ps[..|ps| - 1], WirePacket(ps[|ps| - 1]);
      hide WirePacket, FanOut, OnlyReachesUdp;
      BroadcastDatagrams(w, rs, init, fd, i);
      FanOutDatagrams(Broadcast(w, rs, init), rs, packet, fd, i);
      assert i < |rs| ==> w.DatagramsOf(fd) + WireAll(init) + [packet] == w.DatagramsOf(fd) + (WireAll(init) + [packet]);
      hide *;
    }
  }

  // ----- Lists of receivers -----

  ghost predicate Distinct<T>(s: seq<T>) {
    forall i, j :: 0 <= i < j < |s| ==> s[i] != s[j]
  }

  /** std::list::remove */
  function Without<T(==)>(s: seq<T>, x: T): (r: seq<T>)
    ensures x !in r
    ensures forall y :: y in r ==> y in s
    ensures forall y :: y in s && y != x ==> y in r
  {
    if s == [] then [] else (if s[0] == x then [] else [s[0]]) + Without(s[1..], x)
  }

  lemma {:induction false} WithoutDistinct<T>(s: seq<T>, x: T)
    requires Distinct(s)
    ensures Distinct(Without(s, x))
    decreases |s|
  {
    if s != [] {
      WithoutDistinct(s[1..], x);
      assert s[0] !in s[1..];
    }
  }

  /** Taking out what was just appended. */
  lemma {:induction false} WithoutLast<T>(s: seq<T>, x: T)
    requires x !in s
    ensures Without(s + [x], x) == s
  {
    if s == [] {
      assert [x][1..] == [];
    } else {
      assert (s + [x])[1..] == s[1..] + [x];
      WithoutLast(s[1..], x);
    }
  }
}
