/**
 What goes on the wire: the RTP header (section 5.1 of RFC 3550) and the interleaved framing of
 RTSP (section 10.12 of RFC 2326), as the server writes them and as a client reads them.
 */
module Rtp {
  import opened Bytes
  import opened Bits

  const RTP_MAX_PKT_SIZE: nat := 1400
  const RTP_HEADER_SIZE: nat := 12

  /** The bytes behind the header in a sink's buffer, which is RTP_MAX_PKT_SIZE + sizeof(RtpPacket) + 2
      bytes long. */
  const PAYLOAD_ROOM: nat := RTP_MAX_PKT_SIZE + 2

  /** struct RtpHeader; the bit-fields and the integers of 16 and 32 bits as numbers. */
  datatype RtpHeader = RtpHeader(
    csrcLen: nat, extension: nat, padding: nat, version: nat, payloadType: nat, marker: nat,
    seqNo: nat, timestamp: nat, ssrc: nat)
  {
    predicate Valid() {
      && csrcLen < 16 && extension < 2 && padding < 2 && version < 4
      && payloadType < 128 && marker < 2
      && seqNo < 0x1_0000 && timestamp < 0x1_0000_0000 && ssrc < 0x1_0000_0000
    }
  }

  /** The header a sink starts with. */
  function FirstHeader(payloadType: nat, ssrc: nat): RtpHeader {
    RtpHeader(0, 0, 0, 2, payloadType, 0, 0, 0, ssrc)
  }

  /** A packet as a sink hands it over, its header still in host byte order. */
  datatype Packet = Packet(header: RtpHeader, payload: seq<byte>)

  // ----- Byte order -----

  function Le16(x: nat): seq<byte>
    requires x < 0x1_0000
  {
    [x % 256, x / 256]
  }

  function Le32(x: nat): seq<byte>
    requires x < 0x1_0000_0000
  {
    [x % 256, x / 256 % 256, x / 256 / 256 % 256, x / 256 / 256 / 256]
  }

  function Be16(a: nat, b: nat): nat {
    a * 256 + b
  }

  function Be32(a: nat, b: nat, c: nat, d: nat): nat {
    Be16(Be16(Be16(a, b), c), d)
  }

  /** htons on a little-endian machine. */
  function Htons(x: nat): (y: nat)
    requires x < 0x1_0000
    ensures y < 0x1_0000 && Le16(y) == [x / 256, x % 256]
  {
    Be16(x % 256, x / 256)
  }

  /** htonl on a little-endian machine. */
  function Htonl(x: nat): (y: nat)
    requires x < 0x1_0000_0000
    ensures y < 0x1_0000_0000
    ensures Le32(y) == [x / 256 / 256 / 256, x / 256 / 256 % 256, x / 256 % 256, x % 256]
  {
    Be32Digits(x % 256, x / 256 % 256, x / 256 / 256 % 256, x / 256 / 256 / 256);
    Be32(x % 256, x / 256 % 256, x / 256 / 256 % 256, x / 256 / 256 / 256)
  }

  lemma Be16Digits(a: nat, d: byte)
    ensures Be16(a, d) % 256 == d && Be16(a, d) / 256 == a
  {
  }

  lemma Be32Digits(a: byte, b: byte, c: byte, d: byte)
    ensures Be32(a, b, c, d) < 0x1_0000_0000 && Le32(Be32(a, b, c, d)) == [d, c, b, a]
  {
    Be16Digits(Be16(Be16(a, b), c), d);
    Be16Digits(Be16(a, b), c);
    Be16Digits(a, b);
  }

  // ----- The header -----

  /** The twelve bytes of the struct in memory, bit-fields starting at the low bit. */
  function MemoryImage(h: RtpHeader): (b: seq<byte>)
    requires h.Valid()
    ensures |b| == RTP_HEADER_SIZE
  {
    [h.csrcLen + 16 * h.extension + 32 * h.padding + 64 * h.version, h.payloadType + 128 * h.marker]
    + Le16(h.seqNo) + Le32(h.timestamp) + Le32(h.ssrc)
  }

  /** The three htons/htonl assignments of handleSessionSend. */
  function Swapped(h: RtpHeader): (s: RtpHeader)
    requires h.Valid()
    ensures s.Valid()
  {
    h.(seqNo := Htons(h.seqNo), timestamp := Htonl(h.timestamp), ssrc := Htonl(h.ssrc))
  }

  function WirePacket(p: Packet): (b: seq<byte>)
    requires p.header.Valid()
    ensures |b| == RTP_HEADER_SIZE + |p.payload|
  {
    MemoryImage(Swapped(p.header)) + p.payload
  }

  /** Reading a packet as section 5.1 of RFC 3550 lays it out. */
  function ParsePacket(b: seq<byte>): Packet
    requires RTP_HEADER_SIZE <= |b|
  {
    Packet(RtpHeader(b[0] % 16, b[0] / 16 % 2, b[0] / 32 % 2, b[0] / 64, b[1] % 128, b[1] / 128,
                     Be16(b[2], b[3]), Be32(b[4], b[5], b[6], b[7]), Be32(b[8], b[9], b[10], b[11])),
           b[12..])
  }

  /** A client reads back every header field and the payload. */
  lemma ParseInvertsWire(p: Packet)
    requires p.header.Valid()
    ensures ParsePacket(WirePacket(p)) == p
  {
    var h := p.header;
    var b := WirePacket(p);
    WireFields(p);
    hide WirePacket, Be16, Be32;
    ParseBitFields(h);
    BeDigits(h.timestamp);
    BeDigits(h.ssrc);
  }

  /** Where the fields are in the packet. */
  lemma WireFields(p: Packet)
    requires p.header.Valid()
    ensures var h := p.header; var b := WirePacket(p);
            && b[0] == h.csrcLen + 16 * h.extension + 32 * h.padding + 64 * h.version
            && b[1] == h.payloadType + 128 * h.marker
            && Be16(b[2], b[3]) == h.seqNo
            && b[4..8] == [h.timestamp / 256 / 256 / 256, h.timestamp / 256 / 256 % 256, h.timestamp / 256 % 256, h.timestamp % 256]
            && b[8..12] == [h.ssrc / 256 / 256 / 256, h.ssrc / 256 / 256 % 256, h.ssrc / 256 % 256, h.ssrc % 256]
            && b[12..] == p.payload
  {
  }

  lemma BeDigits(x: nat)
    requires x < 0x1_0000_0000
    ensures Be32(x / 256 / 256 / 256, x / 256 / 256 % 256, x / 256 % 256, x % 256) == x
  {
  }

  lemma ParseBitFields(h: RtpHeader)
    requires h.Valid()
    ensures var a := h.csrcLen + 16 * h.extension + 32 * h.padding + 64 * h.version;
            && a % 16 == h.csrcLen && a / 16 % 2 == h.extension && a / 32 % 2 == h.padding && a / 64 == h.version
    ensures var b := h.payloadType + 128 * h.marker;
            b % 128 == h.payloadType && b / 128 == h.marker
  {
    Digit(h.extension + 2 * h.padding + 4 * h.version, h.csrcLen, 16);
    Digit(h.padding + 2 * h.version, h.csrcLen + 16 * h.extension, 32);
    Digit(h.version, h.csrcLen + 16 * h.extension + 32 * h.padding, 64);
    Digit(h.marker, h.payloadType, 128);
  }

  // ----- Interleaved framing -----

  /** prefix[0..4] and the packet, as SendPacketOverTcp sends them. */
  function Framed(channel: nat, packet: seq<byte>): seq<byte> {
    [0x24, channel % 256, |packet| / 256 % 256, |packet| % 256] + packet
  }

  /** The length bytes of the prefix with the masks and shifts of the source. */
  lemma MasksAreDigits(n: nat)
    ensures Shr(And(n, 0xFF00), 8) == n / 256 % 256 && And(n, 0xFF) == n % 256
  {
    Powers();
    hide *;
    Field(n, 0xFF00, 8, 8);
    LowMask(n, 8);
  }

  /** Reading an interleaved stream; None when it does not consist of whole frames. */
  function Demux(s: seq<byte>): Option<seq<(byte, seq<byte>)>>
    decreases |s|
  {
    if s == [] then Some([])
    else if |s| < 4 || s[0] != 0x24 || |s| < 4 + Be16(s[2], s[3]) then None
    else
      var n := 4 + Be16(s[2], s[3]);
      match Demux(s[n..])
      case None => None
      case Some(rest) => Some([(s[1], s[4..n])] + rest)
  }

  lemma DemuxFirst(channel: nat, packet: seq<byte>, rest: seq<byte>)
    requires |packet| < 0x1_0000
    ensures Demux(Framed(channel, packet) + rest)
         == match Demux(rest) case None => None case Some(l) => Some([(channel % 256, packet)] + l)
  {
    var s := Framed(channel, packet) + rest;
    assert Be16(s[2], s[3]) == |packet|;
    assert s[4..4 + |packet|] == packet && s[4 + |packet|..] == rest;
  }

  /** Bytes behind a stream do not disturb its first frame. */
  lemma DemuxBehindFirst(s: seq<byte>, t: seq<byte>)
    requires s != [] && Demux(s).Some?
    ensures |s| >= 4 && 4 + Be16(s[2], s[3]) <= |s|
    ensures var n := 4 + Be16(s[2], s[3]);
            && Demux(s[n..]).Some? && Demux(s).value == [(s[1], s[4..n])] + Demux(s[n..]).value
            && Demux(s + t) == match Demux(s[n..] + t) case None => None case Some(l) => Some([(s[1], s[4..n])] + l)
  {
    var n := 4 + Be16(s[2], s[3]);
    assert (s + t)[4..n] == s[4..n] && (s + t)[n..] == s[n..] + t;
  }

  lemma BehindFirst<T>(x: T, l: seq<T>, p: T)
    ensures [x] + (l + [p]) == [x] + l + [p]
  {
  }

  /** One more whole frame at the end of a stream is one more packet at the end of the list. */
  lemma {:induction false} DemuxAppend(s: seq<byte>, channel: nat, packet: seq<byte>)
    requires |packet| < 0x1_0000 && Demux(s).Some?
    ensures Demux(s + Framed(channel, packet)) == Some(Demux(s).value + [(channel % 256, packet)])
    decreases |s|
  {
    var f := Framed(channel, packet);
    var p: (byte, seq<byte>) := (channel % 256, packet);
    if s == [] {
      DemuxFirst(channel, packet, []);
      assert [] + f == f + [] == f;
      assert [] + [p] == [p] + [] == [p];
    } else {
      DemuxBehindFirst(s, f);
      var n := 4 + Be16(s[2], s[3]);
      DemuxAppend(s[n..], channel, packet);
      hide Demux, Framed, Be16;
      BehindFirst((s[1], s[4..n]), Demux(s[n..]).value, p);
    }
  }

  /** The packets of one channel. */
  function OnChannel(l: seq<(byte, seq<byte>)>, channel: byte): seq<seq<byte>> {
    if l == [] then [] else
      var last := l[|l| - 1];
      OnChannel(l[..|l| - 1], channel) + if last.0 == channel then [last.1] else []
  }

  lemma OnChannelAppend(l: seq<(byte, seq<byte>)>, x: (byte, seq<byte>), channel: byte)
    ensures OnChannel(l + [x], channel) == OnChannel(l, channel) + if x.0 == channel then [x.1] else []
  {
    assert (l + [x])[..|l|] == l;
  }

  // ----- Two tracks on one connection -----

  /** A track number and a packet. */
  type Sent = (nat, seq<byte>)

  /** The stream of one TCP connection on which track 0 uses channel c0 and track 1 channel c1. */
  function Stream(sends: seq<Sent>, c0: nat, c1: nat): seq<byte> {
    if sends == [] then [] else
      var (track, packet) := sends[|sends| - 1];
      Stream(sends[..|sends| - 1], c0, c1) + Framed(if track == 0 then c0 else c1, packet)
  }

  function OfTrack(sends: seq<Sent>, track: nat): seq<seq<byte>> {
    if sends == [] then [] else
      var last := sends[|sends| - 1];
      OfTrack(sends[..|sends| - 1], track) + if last.0 == track then [last.1] else []
  }

  ghost predicate Sendable(sends: seq<Sent>) {
    forall i :: 0 <= i < |sends| ==> sends[i].0 <= 1 && |sends[i].1| < 0x1_0000
  }

  /** The client finds each track's packets, in order, on that track's channel. */
  ghost predicate Separates(sends: seq<Sent>, c0: nat, c1: nat) {
    && Demux(Stream(sends, c0, c1)).Some?
    && OnChannel(Demux(Stream(sends, c0, c1)).value, c0 % 256) == OfTrack(sends, 0)
    && OnChannel(Demux(Stream(sends, c0, c1)).value, c1 % 256) == OfTrack(sends, 1)
  }

  lemma {:induction false} DistinctChannelsSeparate(sends: seq<Sent>, c0: nat, c1: nat)
    requires Sendable(sends) && c0 % 256 != c1 % 256
    ensures Separates(sends, c0, c1)
    decreases |sends|
  {
    if sends != [] {
      var init := sends[..|sends| - 1];
      var (track, packet) := sends[|sends| - 1];
      var c := if track == 0 then c0 else c1;
      DistinctChannelsSeparate(init, c0, c1);
      hide Demux, Framed, OnChannel;
      var s := Stream(init, c0, c1);
      DemuxAppend(s, c, packet);
      OnChannelAppend(Demux(s).value, (c % 256, packet), c0 % 256);
      OnChannelAppend(Demux(s).value, (c % 256, packet), c1 % 256);
    }
  }

  /** With different channels both tracks are found. */
  lemma BothTracksAreFound(sends: seq<Sent>, c0: nat, c1: nat)
    requires c0 % 256 != c1 % 256 && forall i :: 0 <= i < |sends| ==> sends[i].0 <= 1 && |sends[i].1| < 0x1_0000
    ensures Demux(Stream(sends, c0, c1)).Some?
    ensures OnChannel(Demux(Stream(sends, c0, c1)).value, c0 % 256) == OfTrack(sends, 0)
    ensures OnChannel(Demux(Stream(sends, c0, c1)).value, c1 % 256) == OfTrack(sends, 1)
  {
    DistinctChannelsSeparate(sends, c0, c1);
  }

  lemma SameChannelMixes(c0: nat, c1: nat)
    requires c0 % 256 == c1 % 256
    ensures !Separates([(0, [])], c0, c1)
  {
    var sends: seq<Sent> := [(0, [])];
    assert sends[..0] == [];
    assert Stream(sends, c0, c1) == [] + Framed(c0, []);
    DemuxAppend([], c0, []);
    OnChannelAppend([], (c0 % 256, []), c1 % 256);
    assert OfTrack(sends, 1) == OfTrack([], 1) + [];
    assert Demux([]).value + [(c0 % 256, [])] == [(c0 % 256, [])] == [] + [(c0 % 256, [])];
  }

  /** Interleaved tracks can always be told apart exactly when their channels differ in the one
      byte that prefix[1] keeps of them. */
  lemma TracksSeparateIffChannelsDiffer(c0: nat, c1: nat)
    ensures (forall sends | Sendable(sends) :: Separates(sends, c0, c1)) <==> c0 % 256 != c1 % 256
  {
    if c0 % 256 != c1 % 256 {
      forall sends | Sendable(sends) ensures Separates(sends, c0, c1) {
        DistinctChannelsSeparate(sends, c0, c1);
      }
    } else {
      SameChannelMixes(c0, c1);
      assert Sendable([(0, [])]);
    }
  }
}
