/** The RTP payload format for AAC (RFC 3640) as AACMediaSink::sendFrame writes it and a receiver
    reads it: a 16-bit AU-headers-length, one AU header (13-bit size, 3-bit index), the frame. */
module AacPackets {
  import opened Bytes
  import opened Bits
  import opened Rtp

  function AacPacket(h: RtpHeader, frame: seq<byte>): Packet {
    Packet(h, [0x00, 0x10, |frame| / 32 % 256, |frame| % 32 * 8] + frame)
  }

  /** The sink's header after a frame. */
  function AacHeaderAfter(h: RtpHeader): RtpHeader {
    h.(seqNo := (h.seqNo + 1) % 0x1_0000, timestamp := (h.timestamp + 1024) % 0x1_0000_0000)
  }

  /** Sections 3.2.1 and 3.3.6 of RFC 3640: one AU header, sizeLength=13, IndexLength=3. */
  function AccessUnit(payload: seq<byte>): Option<seq<byte>> {
    if |payload| < 4 || Be16(payload[0], payload[1]) != 16 then None else
      var header := Be16(payload[2], payload[3]);
      if header % 8 == 0 && |payload| == 4 + header / 8 then Some(payload[4..]) else None
  }

  /** The 13-bit size field holds the frame size mod 2^13: the header by itself would do for every
      frame shorter than 8192 bytes. */
  lemma SizeFieldHoldsIff(h: RtpHeader, frame: seq<byte>)
    ensures AccessUnit(AacPacket(h, frame).payload) == Some(frame) <==> |frame| < 0x2000
  {
    var p := AacPacket(h, frame).payload;
    AuHeaderSize(|frame|);
    assert p[4..] == frame;
  }

  /** The memcpy of sendFrame writes past the sink's buffer. */
  predicate Overruns(frame: seq<byte>) {
    PAYLOAD_ROOM < 4 + |frame|
  }

  /** What sendFrame does with a frame. */
  datatype Outcome = Ignored | Sent(packet: Packet) | Overrun

  function Send(h: RtpHeader, frame: seq<byte>): Outcome {
    if frame == [] then Ignored else if Overruns(frame) then Overrun else Sent(AacPacket(h, frame))
  }

  /** A receiver gets the frame if and only if it has 1 to 1398 bytes; all longer ones, whatever the
      size field could hold, overrun the buffer. */
  lemma FrameArrivesIffItFitsTheBuffer(h: RtpHeader, frame: seq<byte>)
    ensures Send(h, frame).Sent? && AccessUnit(Send(h, frame).packet.payload) == Some(frame) <==> 1 <= |frame| <= 1398
    ensures Send(h, frame) == Overrun <==> 1398 < |frame|
  {
    SizeFieldHoldsIff(h, frame);
    hide AccessUnit, AacPacket;
  }

  lemma AuHeaderSize(n: nat)
    ensures var header := Be16(n / 32 % 256, n % 32 * 8);
            header % 8 == 0 && header / 8 == n % 0x2000
  {
    var q, m := n / 32, n % 32;
    var q', r := q / 256, q % 256;
    assert n == 32 * q + m && q == 256 * q' + r;
    Digit(q', 32 * r + m, 0x2000);
    Digit(32 * r + m, 0, 8);
  }

  /** The two bytes of the AU header with the masks and shifts of the source. */
  lemma MasksAreDigits(n: nat)
    ensures Shr(And(n, 0x1FE0), 5) == n / 32 % 256 && Shl(And(n, 0x1F), 3) == n % 32 * 8
  {
    Powers();
    hide *;
    Field(n, 0x1FE0, 5, 8);
    LowMask(n, 5);
    ShlIsTimes(n % 32, 3);
  }

  function AacHeaderAfterAll(h: RtpHeader, frames: nat): RtpHeader {
    if frames == 0 then h else AacHeaderAfter(AacHeaderAfterAll(h, frames - 1))
  }

  /** Packet k carries sequence number k and timestamp 1024 * k, counted from the sink's start. */
  lemma {:induction false} AacNumbering(h: RtpHeader, k: nat)
    requires h.Valid()
    ensures AacHeaderAfterAll(h, k)
         == h.(seqNo := (h.seqNo + k) % 0x1_0000, timestamp := (h.timestamp + 1024 * k) % 0x1_0000_0000)
    decreases k
  {
    if k > 0 {
      AacNumbering(h, k - 1);
      AddTwice(h.seqNo, k - 1, 1);
      AddTwice(h.timestamp, 1024 * (k - 1), 1024);
    }
  }
}
