/** MediaSession, RtpConnection and the packet buffer they share, in place. */
module Session {
  import opened Bytes
  import opened Rtp
  import opened Delivery

  /** The sockets. A send is complete. */
  class Net {
    var streams: map<int, seq<byte>>
    var datagrams: map<int, seq<seq<byte>>>

    ghost function View(): Wires
      reads this
    {
      Wires(streams, datagrams)
    }

    constructor ()
      ensures View() == Wires(map[], map[])
    {
      streams, datagrams := map[], map[];
    }

    method Send(fd: int, bytes: seq<byte>)
      modifies this`streams
      ensures streams == old(streams)[fd := old(View().StreamOf(fd)) + bytes]
    {
      streams := streams[fd := (if fd in streams then streams[fd] else []) + bytes];
    }

    method SendTo(fd: int, bytes: seq<byte>)
      modifies this`datagrams
      ensures datagrams == old(datagrams)[fd := old(View().DatagramsOf(fd)) + [bytes]]
    {
      datagrams := datagrams[fd := (if fd in datagrams then datagrams[fd] else []) + [bytes]];
    }
  }

  /** struct RtpPacket inside the sink's buffer: prefix, header and payload are contiguous. */
  class RtpPacket {
    var size: nat
    var header: RtpHeader
    const prefix: array<byte>
    const payload: array<byte>

    ghost predicate Valid()
      reads this
    {
      && prefix.Length == 4
      && payload.Length == PAYLOAD_ROOM
      && prefix != payload
      && size <= payload.Length
      && header.Valid()
    }

    constructor (header: RtpHeader)
      requires header.Valid()
      ensures Valid() && fresh(prefix) && fresh(payload)
    {
      size, this.header := 0, header;
      prefix := new byte[4](_ => 0);
      payload := new byte[PAYLOAD_ROOM](_ => 0);
    }

    /** The bytes from the header to the end of the payload, as they lie in memory. */
    function Memory(): (b: seq<byte>)
      requires Valid()
      reads this, payload
      ensures |b| == RTP_HEADER_SIZE + size
    {
      MemoryImage(header) + payload[..size]
    }

    /** memcpy to payload + at. */
    method Copy(at: nat, bytes: seq<byte>)
      requires at + |bytes| <= payload.Length
      modifies payload
      ensures payload[..at] == old(payload[..at]) && payload[at..at + |bytes|] == bytes
    {
      forall i | 0 <= i < |bytes| {
        payload[at + i] := bytes[i];
      }
    }
  }

  class RtpConnection {
    const sockFd: int
    const isTcp: bool
    const rtpChannel: nat
    var alive: bool

    constructor (sockFd: int, isTcp: bool, rtpChannel: nat)
      ensures View() == Receiver(sockFd, isTcp, rtpChannel, false)
    {
      this.sockFd, this.isTcp, this.rtpChannel, alive := sockFd, isTcp, rtpChannel, false;
    }

    function View(): Receiver
      reads this
    {
      Receiver(sockFd, isTcp, rtpChannel, alive)
    }

    method SetAlive(alive: bool)
      modifies this`alive
      ensures this.alive == alive
    {
      this.alive := alive;
    }

    method SendFrame(packet: RtpPacket, net: Net) returns (ret: int)
      requires packet.Valid()
      modifies packet.prefix, net
      ensures net.View() == Deliver(old(net.View()), View(), packet.Memory())
      ensures ret < 0 <==> !alive
    {
      if !alive {
        return -1;
      }
      if isTcp {
        ret := SendPacketOverTcp(packet, net);
      } else {
        ret := SendPacketOverUdp(packet, net);
      }
    }

    /** Writes this receiver's prefix into the shared packet, then sends prefix and packet. */
    method SendPacketOverTcp(packet: RtpPacket, net: Net) returns (ret: int)
      requires packet.Valid()
      modifies packet.prefix, net`streams
      ensures net.streams == old(net.streams)[sockFd := old(net.View().StreamOf(sockFd)) + Framed(rtpChannel, packet.Memory())]
      ensures 0 <= ret
    {
      var rtpSize := RTP_HEADER_SIZE + packet.size;
      packet.prefix[0] := 0x24;
      packet.prefix[1] := rtpChannel % 256;
      packet.prefix[2] := rtpSize / 256 % 256;
      packet.prefix[3] := rtpSize % 256;
      var bytes := packet.prefix[..] + packet.Memory();
      assert bytes == Framed(rtpChannel, packet.Memory());
      net.Send(sockFd, bytes);
      ret := |bytes|;
    }

    method SendPacketOverUdp(packet: RtpPacket, net: Net) returns (ret: int)
      requires packet.Valid()
      modifies net`datagrams
      ensures net.datagrams == old(net.datagrams)[sockFd := old(net.View().DatagramsOf(sockFd)) + [packet.Memory()]]
      ensures 0 <= ret
    {
      net.SendTo(sockFd, packet.Memory());
      ret := RTP_HEADER_SIZE + packet.size;
    }
  }

  function Views(conns: seq<RtpConnection>): (rs: seq<Receiver>)
    reads conns
    ensures |rs| == |conns| && forall i :: 0 <= i < |conns| ==> rs[i] == conns[i].View()
  {
    seq(|conns|, i requires 0 <= i < |conns| reads conns => conns[i].View())
  }

  datatype Track = Track(alive: bool, conns: seq<RtpConnection>)

  class MediaSession {
    var tracks: seq<Track>

    constructor ()
      ensures tracks == [Track(false, []), Track(false, [])]
    {
      tracks := [Track(false, []), Track(false, [])];
    }

    method AddSink(trackId: nat)
      requires trackId < |tracks| == 2
      modifies this
      ensures tracks == old(tracks)[trackId := old(tracks)[trackId].(alive := true)]
    {
      tracks := tracks[trackId := tracks[trackId].(alive := true)];
    }

    method AddRtpConnection(trackId: nat, conn: RtpConnection)
      requires trackId < |tracks| == 2
      modifies this
      ensures tracks == old(tracks)[trackId := Track(old(tracks)[trackId].alive, old(tracks)[trackId].conns + [conn])]
    {
      var t := tracks[trackId];
      tracks := tracks[trackId := t.(conns := t.conns + [conn])];
    }

    method RemoveRtpConnection(trackId: nat, conn: RtpConnection)
      requires trackId < |tracks| == 2
      modifies this
      ensures tracks == old(tracks)[trackId := Track(old(tracks)[trackId].alive, Without(old(tracks)[trackId].conns, conn))]
    {
      var t := tracks[trackId];
      tracks := tracks[trackId := t.(conns := Without(t.conns, conn))];
    }

    /** Puts the packet's header into network byte order, in place, and sends the packet to every
        receiver of the track. */
    method HandleSessionSend(trackId: nat, packet: RtpPacket, net: Net)
      requires trackId < |tracks| && packet.Valid()
      modifies packet`header, packet.prefix, net
      ensures packet.Valid()
      ensures packet.payload[..] == old(packet.payload[..])
      ensures net.View() == if tracks[trackId].alive
                            then FanOut(old(net.View()), Views(tracks[trackId].conns),
                                        WirePacket(Packet(old(packet.header), packet.payload[..packet.size])))
                            else old(net.View())
    {
      if !tracks[trackId].alive {
        return;
      }
      packet.header := packet.header.(seqNo := Htons(packet.header.seqNo));
      packet.header := packet.header.(timestamp := Htonl(packet.header.timestamp));
      packet.header := packet.header.(ssrc := Htonl(packet.header.ssrc));
      var conns := tracks[trackId].conns;
      ghost var rs, bytes := Views(conns), packet.Memory();
      for i := 0 to |conns|
        invariant packet.Valid() && packet.payload[..] == old(packet.payload[..])
        invariant packet.Memory() == bytes && Views(conns) == rs
        invariant net.View() == FanOut(old(net.View()), rs[..i], bytes)
      {
        var _ := conns[i].SendFrame(packet, net);
        assert rs[..i + 1][..i] == rs[..i];
      }
      assert rs[..|conns|] == rs;
    }
  }

  // ----- When a closing client leaves nothing behind -----

  /** The SETUPs of a client, in order: the track each one named, and the receiver it made. Each
      receiver is in the list of the track named and in no other. */
  ghost predicate Registered<C>(lists: seq<seq<C>>, conns: seq<C>, named: seq<Option<nat>>) {
    && |lists| == 2 && |conns| == |named| && Distinct(conns)
    && forall i, t :: 0 <= i < |conns| && 0 <= t < 2 ==> (conns[i] in lists[t] <==> named[i] == Some(t))
  }

  /** No receiver of the client is in a list. */
  ghost predicate NoneLeft<C>(lists: seq<seq<C>>, conns: seq<C>) {
    forall i, t :: 0 <= i < |conns| && 0 <= t < |lists| ==> conns[i] !in lists[t]
  }

  /** What the destructor makes of the lists: the first receiver leaves track 0, the second track 1. */
  function Cleaned<C(==)>(lists: seq<seq<C>>, conns: seq<C>): (r: seq<seq<C>>)
    requires |lists| == 2
    ensures |r| == 2
  {
    [if conns == [] then lists[0] else Without(lists[0], conns[0]),
     if |conns| < 2 then lists[1] else Without(lists[1], conns[1])]
  }

  /** Every SETUP that named a track was the first and named track 0, or the second and named
      track 1. */
  predicate InOrder(named: seq<Option<nat>>) {
    forall i :: 0 <= i < |named| && named[i].Some? ==> i < 2 && named[i].value == i
  }

  /** For a client with two SETUPs or more, or none, the destructor leaves none of its receivers behind
      if and only if the SETUPs came in order. */
  lemma NoneLeftIff<C>(lists: seq<seq<C>>, conns: seq<C>, named: seq<Option<nat>>)
    requires Registered(lists, conns, named) && |conns| != 1
    requires forall i :: 0 <= i < |named| && named[i].Some? ==> named[i].value < 2
    ensures NoneLeft(Cleaned(lists, conns), conns) <==> InOrder(named)
  {
    if NoneLeft(Cleaned(lists, conns), conns) {
      forall i | 0 <= i < |named| && named[i].Some? ensures i < 2 && named[i].value == i {
        StaysIff(lists, conns, named, i, named[i].value);
        hide Cleaned, Registered;
      }
    } else {
      var i, t :| 0 <= i < |conns| && 0 <= t < 2 && conns[i] in Cleaned(lists, conns)[t];
      StaysIff(lists, conns, named, i, t);
      hide Cleaned;
    }
  }

  /** A receiver stays in a list if its SETUP named that track and had not that number. */
  lemma StaysIff<C>(lists: seq<seq<C>>, conns: seq<C>, named: seq<Option<nat>>, i: nat, t: nat)
    requires Registered(lists, conns, named) && |conns| != 1 && i < |conns| && t < 2
    ensures conns[i] in Cleaned(lists, conns)[t] <==> named[i] == Some(t) && i != t
  {
    assert conns[i] in lists[t] <==> named[i] == Some(t);
    assert i != t && t < |conns| ==> conns[i] != conns[t];
  }

  /** For instance: track 1 set up first and track 0 second, by a client a and b of which are the
      receivers. Both stay, whoever else is in the lists. */
  lemma {:induction false} ReversedSetupsStay<C>(lists: seq<seq<C>>, a: C, b: C)
    requires |lists| == 2 && a != b
    requires forall t :: 0 <= t < 2 ==> a !in lists[t] && b !in lists[t]
    ensures Registered([lists[0] + [b], lists[1] + [a]], [a, b], [Some(1), Some(0)])
    ensures Cleaned([lists[0] + [b], lists[1] + [a]], [a, b]) == [lists[0] + [b], lists[1] + [a]]
  {
    WithoutAbsent(lists[0] + [b], a);
    WithoutAbsent(lists[1] + [a], b);
  }

  lemma {:induction false} WithoutAbsent<C>(s: seq<C>, x: C)
    requires x !in s
    ensures Without(s, x) == s
  {
    if s != [] {
      WithoutAbsent(s[1..], x);
    }
  }

  /** The part of RtspConnection that owns a client's receivers. */
  class RtspConnection {
    const clientFd: int
    const session: MediaSession
    var rtpConns: seq<RtpConnection>
    ghost var named: seq<Option<nat>>  // the tracks that the SETUPs have named

    constructor (clientFd: int, session: MediaSession)
      ensures this.clientFd == clientFd && this.session == session && rtpConns == [] && named == []
    {
      this.clientFd, this.session, rtpConns, named := clientFd, session, [], [];
    }

    ghost predicate IsRegistered()
      reads this, session
    {
      && |session.tracks| == 2
      && Registered([session.tracks[0].conns, session.tracks[1].conns], rtpConns, named)
      && forall i :: 0 <= i < |named| && named[i].Some? ==> named[i].value < 2
    }

    /** handleSetup for an already parsed track name. A new receiver is not alive; with a track
        name that is neither track0 nor track1 it is kept here and not added to the session. */
    method HandleSetup(track: Option<nat>, isTcp: bool, udpSocket: int, channel: nat) returns (conn: RtpConnection)
      requires |session.tracks| == 2 && (track.Some? ==> track.value < 2)
      modifies this, session
      ensures fresh(conn)
      ensures conn.View() == Receiver(if isTcp then clientFd else udpSocket, isTcp, if isTcp then channel else 0, false)
      ensures rtpConns == old(rtpConns) + [conn]
      ensures session.tracks == match track
                                case None => old(session.tracks)
                                case Some(t) => old(session.tracks)[t := Track(old(session.tracks)[t].alive, old(session.tracks)[t].conns + [conn])]
      ensures named == old(named) + [track] && (old(IsRegistered()) ==> IsRegistered())
    {
      if isTcp {
        conn := new RtpConnection(clientFd, true, channel);
      } else {
        conn := new RtpConnection(udpSocket, false, 0);
      }
      rtpConns, named := rtpConns + [conn], named + [track];
      if track.Some? {
        session.AddRtpConnection(track.value, conn);
      }
    }

    /** handlePlay: every receiver of this client becomes alive, and no other receiver in the
        session's lists changes. */
    method HandlePlay()
      modifies rtpConns
      ensures forall c :: c in rtpConns ==> c.alive
      ensures forall t, c :: 0 <= t < |session.tracks| && c in session.tracks[t].conns ==>
                c.View() == old(c.View()).(alive := old(c.alive) || c in rtpConns)
    {
      for i := 0 to |rtpConns|
        invariant forall j :: 0 <= j < i ==> rtpConns[j].alive
        invariant forall t, c :: 0 <= t < |session.tracks| && c in session.tracks[t].conns ==>
                    c.alive == (old(c.alive) || c in rtpConns[..i])
      {
        rtpConns[i].SetAlive(true);
      }
    }

    /** The destructor, up to the access past the end of rtp_conns_ that it makes after exactly one
        SETUP. It stays in bounds and leaves none of the client's receivers behind if and only if
        the SETUPs came in order and were not just one. */
    method Destroy() returns (inBounds: bool)
      requires |session.tracks| == 2
      modifies session
      ensures inBounds <==> |rtpConns| != 1
      ensures |session.tracks| == 2
      ensures old(IsRegistered()) ==>
                (inBounds && NoneLeft([session.tracks[0].conns, session.tracks[1].conns], rtpConns) <==> |named| != 1 && InOrder(named))
      ensures session.tracks[0] == if rtpConns == [] then old(session.tracks)[0]
                                   else Track(old(session.tracks)[0].alive, Without(old(session.tracks)[0].conns, rtpConns[0]))
      ensures session.tracks[1] == if |rtpConns| < 2 then old(session.tracks)[1]
                                   else Track(old(session.tracks)[1].alive, Without(old(session.tracks)[1].conns, rtpConns[1]))
    {
      if old(IsRegistered()) && |rtpConns| != 1 {
        NoneLeftIff([session.tracks[0].conns, session.tracks[1].conns], rtpConns, named);
      }
      if |rtpConns| == 0 {
        return true;
      }
      session.RemoveRtpConnection(0, rtpConns[0]);
      if |rtpConns| == 1 {
        return false;
      }
      session.RemoveRtpConnection(1, rtpConns[1]);
      inBounds := true;
    }

    /** One client's life: track 0 and track 1 set up, played and closed. The session's lists are
        as they were, whoever else is in them. */
    method SetUpPlayAndClose(isTcp: bool, sockets: (int, int), channels: (nat, nat))
      requires |session.tracks| == 2 && rtpConns == []
      modifies this, session
      ensures session.tracks == old(session.tracks)
    {
      hide Registered, InOrder, NoneLeft;
      var c0 := HandleSetup(Some(0), isTcp, sockets.0, channels.0);
      var c1 := HandleSetup(Some(1), isTcp, sockets.1, channels.1);
      assert rtpConns == [c0, c1];
      HandlePlay();
      WithoutLast(old(session.tracks)[0].conns, c0);
      WithoutLast(old(session.tracks)[1].conns, c1);
      var _ := Destroy();
    }

    /** The same with the two SETUPs the other way round: both receivers stay in the session's lists. */
    method SetUpReversedPlayAndClose(isTcp: bool, sockets: (int, int), channels: (nat, nat))
      requires |session.tracks| == 2 && rtpConns == []
      modifies this, session
      ensures |rtpConns| == 2 && fresh(rtpConns)
      ensures session.tracks == [Track(old(session.tracks)[0].alive, old(session.tracks)[0].conns + [rtpConns[1]]),
                                 Track(old(session.tracks)[1].alive, old(session.tracks)[1].conns + [rtpConns[0]])]
    {
      hide Registered, InOrder, NoneLeft;
      var c0 := HandleSetup(Some(1), isTcp, sockets.0, channels.0);
      var c1 := HandleSetup(Some(0), isTcp, sockets.1, channels.1);
      assert rtpConns == [c0, c1];
      HandlePlay();
      WithoutAbsent(session.tracks[0].conns, c0);
      WithoutAbsent(session.tracks[1].conns, c1);
      assert Without(session.tracks[0].conns, c0) == old(session.tracks)[0].conns + [c1];
      assert Without(session.tracks[1].conns, c1) == old(session.tracks)[1].conns + [c0];
      var _ := Destroy();
    }
  }
}
