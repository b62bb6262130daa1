/** The media sinks, in place: H264MediaSink::sendFrame and AACMediaSink::sendFrame over one
    reused packet buffer, handing every packet to the session. */
module Sinks {
  import opened Bytes
  import opened Bits
  import opened Rtp
  import opened Delivery
  import opened Session
  import opened H264Packets
  import opened AacPackets

  /** What a session does with the packets of one of its tracks. */
  ghost function AfterSending(w: Wires, track: Track, rs: seq<Receiver>, ps: seq<Packet>): Wires
    requires AllValid(ps)
  {
    if track.alive then Broadcast(w, rs, ps) else w
  }

  lemma AfterOneMore(w: Wires, track: Track, rs: seq<Receiver>, ps: seq<Packet>, k: nat)
    requires AllValid(ps) && k < |ps|
    ensures AfterSending(w, track, rs, ps[..k + 1])
         == if track.alive then FanOut(AfterSending(w, track, rs, ps[..k]), rs, WirePacket(ps[k])) else w
  {
    BroadcastOneMore(w, rs, ps, k);
  }

  class Sink {
    const session: MediaSession
    const net: Net
    const trackId: nat
    const packet: RtpPacket
    var header: RtpHeader

    ghost predicate Valid()
      reads this, session, packet
    {
      trackId < |session.tracks| == 2 && packet.Valid() && header.Valid()
    }

    ghost function Receivers(): seq<Receiver>
      requires Valid()
      reads this, session, packet, session.tracks[trackId].conns
    {
      Views(session.tracks[trackId].conns)
    }

    /** The sink started with header h and sockets w and has sent k packets of ps. */
    ghost predicate HasSent(w: Wires, h: RtpHeader, ps: seq<Packet>, k: nat)
      reads this, session, packet, net
      reads if trackId < |session.tracks| then session.tracks[trackId].conns else []
    {
      && Valid() && h.Valid() && AllValid(ps) && k <= |ps|
      && header == h.(seqNo := (h.seqNo + k) % 0x1_0000)
      && net.View() == AfterSending(w, session.tracks[trackId], Receivers(), ps[..k])
    }

    constructor (session: MediaSession, net: Net, trackId: nat, payloadType: nat, ssrc: nat)
      requires trackId < |session.tracks| == 2 && payloadType < 128 && ssrc < 0x1_0000_0000
      ensures Valid() && fresh(packet) && fresh(packet.prefix) && fresh(packet.payload)
      ensures this.session == session && this.net == net && this.trackId == trackId
      ensures header == RtpHeader(0, 0, 0, 2, payloadType, 0, 0, 0, ssrc)
    {
      this.session, this.net, this.trackId := session, net, trackId;
      header := FirstHeader(payloadType, ssrc);
      packet := new RtpPacket(FirstHeader(payloadType, ssrc));
    }

    /** sendRtpPacket after the payload has been written: the packet gets a copy of the header, so
        the byte swap in the session does not reach the sink's own. */
    method SendRtpPacket(size: nat)
      requires Valid() && size <= packet.payload.Length
      modifies packet`size, packet`header, packet.prefix, net
      ensures Valid() && packet.payload[..] == old(packet.payload[..])
      ensures net.View() == if session.tracks[trackId].alive
                            then FanOut(old(net.View()), Receivers(), WirePacket(Packet(header, packet.payload[..size])))
                            else old(net.View())
    {
      packet.header := header;
      packet.size := size;
      session.HandleSessionSend(trackId, packet, net);
    }

    /** H264MediaSink::sendFrame */
    method SendH264Frame(frame: seq<byte>, after: byte, fps: nat)
      requires Valid() && 0 < fps
      modifies this`header, packet, packet.prefix, packet.payload, net
      ensures Valid()
      ensures header == HeaderAfter(old(header), frame, fps)
      ensures header.timestamp
           == if frame == [] || (|frame| <= 1400 && (And(frame[0], 0x1F) == 7 || And(frame[0], 0x1F) == 8))
              then old(header).timestamp else (old(header).timestamp + 12000 / fps) % 0x1_0000_0000
      ensures AllValid(PacketsOf(old(header), frame, after))
      ensures net.View() == AfterSending(old(net.View()), session.tracks[trackId], Receivers(), PacketsOf(old(header), frame, after))
    {
      ghost var w, h, ps := net.View(), header, PacketsOf(header, frame, after);
      PacketHeaders(h, frame, after);
      assert HasSent(w, h, ps, 0);
      hide HasSent, AfterSending, PacketsOf, And;
      HeaderMoves(h, frame, fps);
      SendNalu(frame, after, w, ps);
      AllSent(w, h, ps);
      MoveClock(frame, fps);
    }

    /** The rest of sendFrame: an empty frame, and an SPS or PPS in one packet, leave the clock as it is. */
    method MoveClock(frame: seq<byte>, fps: nat)
      requires Valid() && 0 < fps
      modifies this`header
      ensures header == old(header).(timestamp :=
                if frame == [] || (|frame| <= 1400 && (And(frame[0], 0x1F) == 7 || And(frame[0], 0x1F) == 8))
                then old(header).timestamp else (old(header).timestamp + 12000 / fps) % 0x1_0000_0000)
    {
      hide And;
      if |frame| == 0 {
        return;
      }
      if |frame| <= RTP_MAX_PKT_SIZE && (And(frame[0], 0x1F) == 7 || And(frame[0], 0x1F) == 8) {
        return;
      }
      header := header.(timestamp := (header.timestamp + 12000 / fps) % 0x1_0000_0000);
    }

    /** Both modes of sendFrame, up to the timestamp. */
    method SendNalu(frame: seq<byte>, after: byte, ghost w: Wires, ghost ps: seq<Packet>)
      requires HasSent(w, header, ps, 0) && ps == PacketsOf(header, frame, after)
      modifies this`header, packet, packet.prefix, packet.payload, net
      ensures HasSent(w, old(header), ps, |ps|)
    {
      hide HasSent;
      if |frame| == 0 {
        return;
      }
      if |frame| <= RTP_MAX_PKT_SIZE {
        SendSingle(frame, w, ps);
      } else {
        SendFragments(frame, after, w, ps);
      }
    }

    lemma AllSent(w: Wires, h: RtpHeader, ps: seq<Packet>)
      requires HasSent(w, h, ps, |ps|)
      ensures Valid() && header == h.(seqNo := (h.seqNo + |ps|) % 0x1_0000)
      ensures net.View() == AfterSending(w, session.tracks[trackId], Receivers(), ps)
    {
      assert ps[..|ps|] == ps;
    }

    /** Sends packet k of ps, whose payload has been written into the buffer. */
    method SendNext(size: nat, ghost w: Wires, ghost ps: seq<Packet>, ghost k: nat)
      requires Valid() && size <= packet.payload.Length && AllValid(ps) && k < |ps|
      requires ps[k] == Packet(header, packet.payload[..size])
      requires net.View() == AfterSending(w, session.tracks[trackId], Receivers(), ps[..k])
      modifies packet`size, packet`header, packet.prefix, net
      ensures Valid()
      ensures net.View() == AfterSending(w, session.tracks[trackId], Receivers(), ps[..k + 1])
    {
      AfterOneMore(w, session.tracks[trackId], Receivers(), ps, k);
      hide AfterSending, FanOut;
      SendRtpPacket(size);
    }

    method SendSingle(frame: seq<byte>, ghost w: Wires, ghost ps: seq<Packet>)
      requires 0 < |frame| <= RTP_MAX_PKT_SIZE
      requires HasSent(w, header, ps, 0) && ps == [Packet(header, frame)]
      modifies this`header, packet, packet.prefix, packet.payload, net
      ensures HasSent(w, old(header), ps, 1)
    {
      hide AfterSending;
      packet.Copy(0, frame);
      assert packet.payload[..|frame|] == frame;
      SendNext(|frame|, w, ps, 0);
      header := header.(seqNo := (header.seqNo + 1) % 0x1_0000);
    }

    method SendFragments(frame: seq<byte>, after: byte, ghost w: Wires, ghost ps: seq<Packet>)
      requires RTP_MAX_PKT_SIZE < |frame|
      requires HasSent(w, header, ps, 0) && ps == Fragments(header, frame + [after], |frame|)
      modifies this`header, packet, packet.prefix, packet.payload, net
      ensures HasSent(w, old(header), ps, |ps|)
    {
      hide HasSent;
      var memory, n := frame + [after], |frame|;
      var naluType := frame[0];
      var pktNum, remainPktSize := n / RTP_MAX_PKT_SIZE, n % RTP_MAX_PKT_SIZE;
      ghost var h := header;
      var pos := 1;
      for i := 0 to pktNum
        invariant HasSent(w, h, ps, i)
        invariant pos == 1 + i * RTP_MAX_PKT_SIZE
      {
        var flag: byte := 0;
        if i == 0 {
          flag := 0x80;
        } else if remainPktSize == 0 && i == pktNum - 1 {
          flag := 0x40;
        }
        SendFragment(naluType, flag, memory[pos..pos + RTP_MAX_PKT_SIZE], w, h, ps, i);
        pos := pos + RTP_MAX_PKT_SIZE;
      }
      if remainPktSize > 0 {
        SendFragment(naluType, 0x40, memory[pos..pos + remainPktSize], w, h, ps, pktNum);
      }
    }

    /** One turn of the fragment loop: writes packet k into the buffer and sends it. */
    method SendFragment(naluType: byte, flag: byte, chunk: seq<byte>,
                        ghost w: Wires, ghost h: RtpHeader, ghost ps: seq<Packet>, ghost k: nat)
      requires HasSent(w, h, ps, k) && k < |ps|
      requires |chunk| <= RTP_MAX_PKT_SIZE && flag < 0xE0
      requires ps[k] == Packet(h.(seqNo := (h.seqNo + k) % 0x1_0000), [FuIndicator(naluType), naluType % 32 + flag] + chunk)
      modifies this`header, packet, packet.prefix, packet.payload, net
      ensures HasSent(w, h, ps, k + 1)
    {
      hide AfterSending, FuIndicator;
      WriteFragment(naluType, flag, chunk);
      SendNext(2 + |chunk|, w, ps, k);
      AddTwice(h.seqNo, k, 1);
      header := header.(seqNo := (header.seqNo + 1) % 0x1_0000);
    }

    method WriteFragment(naluType: byte, flag: byte, chunk: seq<byte>)
      requires Valid() && |chunk| <= RTP_MAX_PKT_SIZE && flag < 0xE0
      modifies packet.payload
      ensures packet.payload[..2 + |chunk|] == [FuIndicator(naluType), naluType % 32 + flag] + chunk
    {
      packet.payload[0] := naluType / 32 % 4 * 32 + 28;
      packet.payload[1] := naluType % 32;
      packet.payload[1] := packet.payload[1] + flag;
      packet.Copy(2, chunk);
      assert packet.payload[..2 + |chunk|] == packet.payload[..2] + packet.payload[2..2 + |chunk|];
    }

    /** AACMediaSink::sendFrame, up to the memcpy that would overrun the buffer. */
    method SendAacFrame(frame: seq<byte>) returns (overrun: bool)
      requires Valid()
      modifies this`header, packet, packet.prefix, packet.payload, net
      ensures Valid()
      ensures overrun <==> Send(old(header), frame) == Overrun
      ensures match Send(old(header), frame)
              case Sent(p) =>
                && header == AacHeaderAfter(old(header))
                && AllValid([p]) && net.View() == AfterSending(old(net.View()), session.tracks[trackId], Receivers(), [p])
              case _ => header == old(header) && net.View() == old(net.View())
    {
      if |frame| == 0 {
        return false;
      }
      if packet.payload.Length < 4 + |frame| {
        return true;
      }
      SendAccessUnit(frame);
      header := header.(seqNo := (header.seqNo + 1) % 0x1_0000);
      header := header.(timestamp := (header.timestamp + 1024) % 0x1_0000_0000);
      overrun := false;
    }

    method SendAccessUnit(frame: seq<byte>)
      requires Valid() && !Overruns(frame)
      modifies packet, packet.prefix, packet.payload, net
      ensures Valid()
      ensures AllValid([AacPacket(header, frame)])
      ensures net.View() == AfterSending(old(net.View()), session.tracks[trackId], Receivers(), [AacPacket(header, frame)])
    {
      ghost var w, ps := net.View(), [AacPacket(header, frame)];
      WriteAccessUnit(frame);
      assert ps[..1] == ps && ps[..0] == [];
      assert net.View() == AfterSending(w, session.tracks[trackId], Receivers(), ps[..0]);
      hide AfterSending;
      SendNext(4 + |frame|, w, ps, 0);
    }

    method WriteAccessUnit(frame: seq<byte>)
      requires Valid() && !Overruns(frame)
      modifies packet.payload
      ensures packet.payload[..4 + |frame|] == [0x00, 0x10, |frame| / 32 % 256, |frame| % 32 * 8] + frame
    {
      packet.payload[0], packet.payload[1] := 0x00, 0x10;
      packet.payload[2] := |frame| / 32 % 256;
      packet.payload[3] := |frame| % 32 * 8;
      packet.Copy(4, frame);
      assert packet.payload[..4 + |frame|] == packet.payload[..4] + packet.payload[4..4 + |frame|];
    }
  }
}
