/**
 The RTP payload format for H.264 (RFC 6184): the packets that H264MediaSink::sendFrame makes
 of a frame, and a receiver's reading of them.

 Bit operations on the first byte of a NAL unit, |F|NRI|Type|, are written as arithmetic;
 MasksAreDigits proves that the masks of the source come to the same.
 */
module H264Packets {
  import opened Bytes
  import opened Bits
  import opened Rtp

  // ----- The sender -----

  function FuIndicator(nalu: byte): byte {
    nalu / 32 % 4 * 32 + 28
  }

  /** The start bit on packet 0, else the end bit on the last packet. */
  function FuHeader(nalu: byte, n: nat, k: nat): byte {
    nalu % 32 + if k == 0 then 0x80 else if k == FragmentCount(n) - 1 then 0x40 else 0
  }

  /** pktNum full packets and one more if remainPktSize > 0. */
  function FragmentCount(n: nat): nat {
    n / RTP_MAX_PKT_SIZE + if n % RTP_MAX_PKT_SIZE > 0 then 1 else 0
  }

  /** Packet k when n bytes are sent in fragments; copying starts at pos == 1, behind the NAL
      header, so the packets take n bytes out of source[1..]. */
  function Fragment(h: RtpHeader, source: seq<byte>, n: nat, k: nat): Packet
    requires RTP_MAX_PKT_SIZE < n && |source| == n + 1 && k < FragmentCount(n)
  {
    var pos := 1 + k * RTP_MAX_PKT_SIZE;
    Packet(h.(seqNo := (h.seqNo + k) % 0x1_0000),
           [FuIndicator(source[0]), FuHeader(source[0], n, k)]
           + source[pos..Min(pos + RTP_MAX_PKT_SIZE, n + 1)])
  }

  function Fragments(h: RtpHeader, source: seq<byte>, n: nat): (ps: seq<Packet>)
    requires RTP_MAX_PKT_SIZE < n && |source| == n + 1
    ensures |ps| == FragmentCount(n) && forall k :: 0 <= k < |ps| ==> ps[k] == Fragment(h, source, n, k)
  {
    seq(FragmentCount(n), k requires 0 <= k < FragmentCount(n) => Fragment(h, source, n, k))
  }

  /** sendFrame. `after` is the byte behind the frame in memory, which the last memcpy reads. */
  function PacketsOf(h: RtpHeader, frame: seq<byte>, after: byte): seq<Packet> {
    if |frame| == 0 then []
    else if |frame| <= RTP_MAX_PKT_SIZE then [Packet(h, frame)]
    else Fragments(h, frame + [after], |frame|)
  }

  /** A frame that moves the timestamp on: any but an empty one or an SPS or PPS in one packet. */
  predicate IsTimed(frame: seq<byte>) {
    |frame| > 0 && (|frame| > RTP_MAX_PKT_SIZE || (frame[0] % 32 != 7 && frame[0] % 32 != 8))
  }

  /** The sink's header after sendFrame. */
  function HeaderAfter(h: RtpHeader, frame: seq<byte>, fps: nat): RtpHeader
    requires 0 < fps
  {
    h.(seqNo := (h.seqNo + |PacketsOf(h, frame, 0)|) % 0x1_0000,
       timestamp := if IsTimed(frame) then (h.timestamp + 12000 / fps) % 0x1_0000_0000 else h.timestamp)
  }

  /** What the source asks before it lets the clock stand, with its masks. */
  lemma IsTimedIff(frame: seq<byte>)
    ensures IsTimed(frame) <==>
              frame != [] && !(|frame| <= 1400 && (And(frame[0], 0x1F) == 7 || And(frame[0], 0x1F) == 8))
  {
    if frame != [] {
      MasksAreDigits(frame[0], 0, 0);
    }
    hide And;
  }

  /** How a frame changes the sink's header: it counts the packets, and it moves the clock by
      12000 / FPS unless the frame is empty, or an SPS or PPS in one packet. */
  lemma HeaderMoves(h: RtpHeader, frame: seq<byte>, fps: nat)
    requires h.Valid() && 0 < fps
    ensures HeaderAfter(h, frame, fps).timestamp
         == if frame == [] || (|frame| <= 1400 && (And(frame[0], 0x1F) == 7 || And(frame[0], 0x1F) == 8))
            then h.timestamp else (h.timestamp + 12000 / fps) % 0x1_0000_0000
    ensures HeaderAfter(h, frame, fps).seqNo
         == (h.seqNo + if |frame| <= 1400 then (if frame == [] then 0 else 1) else (|frame| + 1399) / 1400) % 0x1_0000
    ensures HeaderAfter(h, frame, fps) == h.(seqNo := HeaderAfter(h, frame, fps).seqNo, timestamp := HeaderAfter(h, frame, fps).timestamp)
  {
    IsTimedIff(frame);
    if |frame| > 1400 {
      Digit(|frame| / 1400, |frame| % 1400, 1400);
    }
    hide And, IsTimed;
  }

  /** The FU indicator, the FU header and the NAL type with the masks of the source. */
  lemma MasksAreDigits(nalu: byte, n: nat, k: nat)
    ensures FuIndicator(nalu) == Or(And(nalu, 0x60), 28)
    ensures FuHeader(nalu, n, k) == if k == 0 then Or(And(nalu, 0x1F), 0x80)
                                    else if k == FragmentCount(n) - 1 then Or(And(nalu, 0x1F), 0x40)
                                    else And(nalu, 0x1F)
    ensures And(nalu, 0x1F) == nalu % 32
  {
    Powers();
    hide And, Or, Shl, Shr, Pow2, FragmentCount;
    Field(nalu, 0x60, 5, 2);
    LowMask(nalu, 5);
    Sum(nalu / 32 % 4, 32, 28, 5);
    Sum(4, 32, nalu % 32, 5);
    Sum(2, 32, nalu % 32, 5);
  }

  // ----- The receiver -----

  /** Section 5.8 of RFC 6184: an FU-A fragment with these start and end bits. */
  predicate IsFuA(payload: seq<byte>, start: nat, end: nat) {
    && 2 < |payload|
    && payload[0] % 32 == 28
    && payload[1] / 128 == start && payload[1] / 64 % 2 == end && payload[1] / 32 % 2 == 0
  }

  /** A complete fragmented NAL unit: at least two fragments, the start bit on the first only, the
      end bit on the last only, one NRI and one type throughout. */
  ghost predicate IsFragmented(ps: seq<Packet>) {
    && 2 <= |ps|
    && 2 < |ps[0].payload|
    && forall k :: 0 <= k < |ps| ==>
         && IsFuA(ps[k].payload, if k == 0 then 1 else 0, if k == |ps| - 1 then 1 else 0)
         && ps[k].payload[0] == ps[0].payload[0]
         && ps[k].payload[1] % 32 == ps[0].payload[1] % 32
  }

  /** The fragments' contents, one after the other. */
  function Contents(ps: seq<Packet>): seq<byte> {
    if ps == [] then [] else
      var last := ps[|ps| - 1].payload;
      Contents(ps[..|ps| - 1]) + if 2 <= |last| then last[2..] else []
  }

  /** The NAL unit the receiver rebuilds; a payload of type 1 to 23 is a NAL unit by itself. */
  ghost function Rebuilt(ps: seq<Packet>): Option<seq<byte>> {
    if |ps| == 1 && 0 < |ps[0].payload| && 1 <= ps[0].payload[0] % 32 <= 23 then Some(ps[0].payload)
    else if IsFragmented(ps) then
      Some([ps[0].payload[0] / 32 * 32 + ps[0].payload[1] % 32] + Contents(ps))
    else None
  }

  // ----- Fragmentation -----

  /** Every fragmentation has the shape the RFC asks for, and every payload fits the buffer. */
  lemma FragmentsAreWellFormed(h: RtpHeader, source: seq<byte>, n: nat)
    requires RTP_MAX_PKT_SIZE < n && |source| == n + 1
    ensures var ps := Fragments(h, source, n);
            && IsFragmented(ps)
            && (|ps| - 1) * 1400 < n <= |ps| * 1400
            && forall k :: 0 <= k < |ps| ==>
                 && |ps[k].payload| <= 1402
                 && ps[k].header == h.(seqNo := (h.seqNo + k) % 0x1_0000)
  {
    var ps := Fragments(h, source, n);
    forall k | 0 <= k < |ps|
      ensures IsFuA(ps[k].payload, if k == 0 then 1 else 0, if k == |ps| - 1 then 1 else 0)
      ensures |ps[k].payload| <= RTP_MAX_PKT_SIZE + 2
      ensures ps[k].payload[0] == ps[0].payload[0] && ps[k].payload[1] % 32 == source[0] % 32
    {
      FuHeaderBits(source[0], n, k);
      FuHeaderBits(source[0], n, 0);
    }
  }

  lemma FuHeaderBits(nalu: byte, n: nat, k: nat)
    requires RTP_MAX_PKT_SIZE < n && k < FragmentCount(n)
    ensures var b := FuHeader(nalu, n, k);
            && b / 128 == (if k == 0 then 1 else 0)
            && b / 64 % 2 == (if k == FragmentCount(n) - 1 then 1 else 0)
            && b / 32 % 2 == 0 && b % 32 == nalu % 32
    ensures FuIndicator(nalu) % 32 == 28 && FuIndicator(nalu) / 32 == nalu / 32 % 4
  {
  }

  lemma {:induction false} ContentsOfPrefix(h: RtpHeader, source: seq<byte>, n: nat, k: nat)
    requires RTP_MAX_PKT_SIZE < n && |source| == n + 1 && k <= FragmentCount(n)
    ensures Contents(Fragments(h, source, n)[..k]) == source[1..Min(1 + k * RTP_MAX_PKT_SIZE, n + 1)]
    decreases k
  {
    var ps := Fragments(h, source, n);
    if k > 0 {
      ContentsOfPrefix(h, source, n, k - 1);
      assert ps[..k][..k - 1] == ps[..k - 1];
      var pos := 1 + (k - 1) * RTP_MAX_PKT_SIZE;
      var end := Min(pos + RTP_MAX_PKT_SIZE, n + 1);
      hide FragmentCount, FuHeader, FuIndicator;
      assert ps[k - 1].payload[2..] == source[pos..end];
      Adjacent(source, 1, pos, end);
    }
  }

  lemma Adjacent(s: seq<byte>, a: nat, b: nat, c: nat)
    requires a <= b <= c <= |s|
    ensures s[a..b] + s[b..c] == s[a..c]
  {
  }

  lemma FirstPayload(h: RtpHeader, source: seq<byte>, n: nat)
    requires RTP_MAX_PKT_SIZE < n && |source| == n + 1
    ensures var ps := Fragments(h, source, n);
            0 < |ps| && 2 <= |ps[0].payload| && ps[0].payload[0] / 32 * 32 + ps[0].payload[1] % 32 == source[0] % 128
            && (1 < |ps| ==> ps[0].payload[0] % 32 == 28)
  {
    var first := Fragments(h, source, n)[0].payload;
    FuHeaderBits(source[0], n, 0);
    assert first[0] == FuIndicator(source[0]) && first[1] == FuHeader(source[0], n, 0);
    hide Fragments, Fragment, FuHeader, FuIndicator, FragmentCount;
    assert source[0] / 32 % 4 * 32 + source[0] % 32 == source[0] % 128;
  }

  /** Reassembly gives back the NAL header without its F bit, then source[1..n + 1]. */
  lemma FragmentsRebuild(h: RtpHeader, source: seq<byte>, n: nat)
    requires RTP_MAX_PKT_SIZE < n && |source| == n + 1
    ensures Rebuilt(Fragments(h, source, n)) == Some([source[0] % 128] + source[1..])
  {
    var ps := Fragments(h, source, n);
    FragmentsAreWellFormed(h, source, n);
    assert n <= |ps| * RTP_MAX_PKT_SIZE && |ps| == FragmentCount(n);
    FirstPayload(h, source, n);
    hide Fragments, Fragment, FuHeader, FuIndicator, Contents, FragmentCount;
    ContentsOfPrefix(h, source, n, |ps|);
    assert ps[..|ps|] == ps && source[1..n + 1] == source[1..];
  }

  /** As written, a fragmented frame arrives with its F bit cleared and one byte too many: the
      byte behind it. */
  lemma LongFrameArrivesWithOneMoreByte(h: RtpHeader, frame: seq<byte>, after: byte)
    requires 1400 < |frame|
    ensures Rebuilt(PacketsOf(h, frame, after)) == Some([frame[0] % 128] + frame[1..] + [after])
  {
    FragmentsRebuild(h, frame + [after], |frame|);
    var f := [frame[0] % 128];
    assert (frame + [after])[1..] == frame[1..] + [after];
    assert f + (frame[1..] + [after]) == f + frame[1..] + [after];
  }

  /** A frame that goes out in one packet and is recognised as a NAL unit by itself. */
  predicate IsIntact(frame: seq<byte>) {
    0 < |frame| <= RTP_MAX_PKT_SIZE && 1 <= frame[0] % 32 <= 23
  }

  /** A receiver gets back exactly the frame sent if and only if it went out in one packet and has
      the type of a single NAL unit. */
  lemma FrameArrivesIffItIsIntact(h: RtpHeader, frame: seq<byte>, after: byte)
    ensures Rebuilt(PacketsOf(h, frame, after)) == Some(frame) <==> IsIntact(frame)
    ensures IsIntact(frame) <==> 1 <= |frame| <= 1400 && 1 <= And(frame[0], 0x1F) <= 23
  {
    if frame != [] {
      MasksAreDigits(frame[0], 0, 0);
    }
    hide And;
    if RTP_MAX_PKT_SIZE < |frame| {
      LongFrameArrivesWithOneMoreByte(h, frame, after);
    }
  }

  /** Counting the packets over the size - 1 bytes behind the NAL header instead (and fragmenting
      only if those do not fit one packet) makes the round trip exact for every frame whose
      F bit is 0. */
  lemma CountingFromOneIsExact(h: RtpHeader, frame: seq<byte>)
    requires 1401 < |frame| && frame[0] < 128
    ensures Rebuilt(Fragments(h, frame, |frame| - 1)) == Some(frame)
  {
    FragmentsRebuild(h, frame, |frame| - 1);
    assert frame[0] % 128 == frame[0];
    assert [frame[0]] + frame[1..] == frame;
  }

  // ----- Numbering -----

  /** A frame and the byte behind it. */
  type Input = (seq<byte>, byte)

  /** The sink's header after a run of frames. */
  function HeaderAfterAll(h: RtpHeader, fps: nat, frames: seq<Input>): RtpHeader
    requires 0 < fps
  {
    if frames == [] then h else
      HeaderAfter(HeaderAfterAll(h, fps, frames[..|frames| - 1]), frames[|frames| - 1].0, fps)
  }

  /** The packets of a run of frames. */
  function RunOf(h: RtpHeader, fps: nat, frames: seq<Input>): seq<Packet>
    requires 0 < fps
  {
    if frames == [] then [] else
      var init := frames[..|frames| - 1];
      var (frame, after) := frames[|frames| - 1];
      RunOf(h, fps, init) + PacketsOf(HeaderAfterAll(h, fps, init), frame, after)
  }

  function TimedFrames(frames: seq<Input>): nat {
    if frames == [] then 0 else
      TimedFrames(frames[..|frames| - 1]) + if IsTimed(frames[|frames| - 1].0) then 1 else 0
  }

  lemma PacketHeaders(h: RtpHeader, frame: seq<byte>, after: byte)
    requires h.Valid()
    ensures var ps := PacketsOf(h, frame, after);
            && |ps| == |PacketsOf(h, frame, 0)|
            && forall k :: 0 <= k < |ps| ==> ps[k].header == h.(seqNo := (h.seqNo + k) % 0x1_0000)
  {
    if RTP_MAX_PKT_SIZE < |frame| {
      FragmentsAreWellFormed(h, frame + [after], |frame|);
    } else if frame != [] {
      assert h.(seqNo := (h.seqNo + 0) % 0x1_0000) == h;
    }
  }

  /** No packet of a video frame overruns the sink's buffer. */
  lemma NeverOverruns(h: RtpHeader, frame: seq<byte>, after: byte)
    ensures forall k :: 0 <= k < |PacketsOf(h, frame, after)| ==> |PacketsOf(h, frame, after)[k].payload| <= PAYLOAD_ROOM
  {
    if RTP_MAX_PKT_SIZE < |frame| {
      FragmentsAreWellFormed(h, frame + [after], |frame|);
    }
  }

  lemma OneFrameCounts(h: RtpHeader, g: RtpHeader, fps: nat, frame: seq<byte>, after: byte, sent: nat, t: nat)
    requires h.Valid() && 0 < fps
    requires g == h.(seqNo := (h.seqNo + sent) % 0x1_0000, timestamp := (h.timestamp + t) % 0x1_0000_0000)
    ensures HeaderAfter(g, frame, fps)
         == h.(seqNo := (h.seqNo + (sent + |PacketsOf(g, frame, after)|)) % 0x1_0000,
               timestamp := (h.timestamp + (t + if IsTimed(frame) then 12000 / fps else 0)) % 0x1_0000_0000)
  {
    PacketHeaders(g, frame, after);
    hide PacketsOf, IsTimed;
    AddTwice(h.seqNo, sent, |PacketsOf(g, frame, after)|);
    AddTwice(h.timestamp, t, if IsTimed(frame) then 12000 / fps else 0);
  }

  /** The clock ticks of a run: 12000 / FPS for every timed frame. */
  function Ticks(fps: nat, frames: seq<Input>): nat
    requires 0 < fps
  {
    if frames == [] then 0 else
      Ticks(fps, frames[..|frames| - 1]) + if IsTimed(frames[|frames| - 1].0) then 12000 / fps else 0
  }

  lemma {:induction false} TicksPerTimedFrame(fps: nat, frames: seq<Input>)
    requires 0 < fps
    ensures Ticks(fps, frames) == 12000 / fps * TimedFrames(frames)
    decreases |frames|
  {
    if frames == [] {
      OneMore(0, 12000 / fps);
    } else {
      TicksPerTimedFrame(fps, frames[..|frames| - 1]);
      OneMore(TimedFrames(frames[..|frames| - 1]), 12000 / fps);
    }
  }

  /** The header a run leaves behind counts its packets mod 2^16 and its ticks mod 2^32; nothing
      else in it changes. */
  lemma {:induction false} HeaderCounts(h: RtpHeader, fps: nat, frames: seq<Input>)
    requires h.Valid() && 0 < fps
    ensures HeaderAfterAll(h, fps, frames)
         == h.(seqNo := (h.seqNo + |RunOf(h, fps, frames)|) % 0x1_0000,
               timestamp := (h.timestamp + Ticks(fps, frames)) % 0x1_0000_0000)
    decreases |frames|
  {
    if frames != [] {
      var init := frames[..|frames| - 1];
      var (frame, after) := frames[|frames| - 1];
      HeaderCounts(h, fps, init);
      hide PacketsOf, HeaderAfter, IsTimed;
      assert RunOf(h, fps, frames) == RunOf(h, fps, init) + PacketsOf(HeaderAfterAll(h, fps, init), frame, after);
      OneFrameCounts(h, HeaderAfterAll(h, fps, init), fps, frame, after, |RunOf(h, fps, init)|, Ticks(fps, init));
    }
  }

  /** Packet k carries sequence number first + k mod 2^16. */
  ghost predicate Consecutive(ps: seq<Packet>, first: nat) {
    forall k :: 0 <= k < |ps| ==> ps[k].header.seqNo == (first + k) % 0x1_0000
  }

  lemma ConsecutiveAppend(ps: seq<Packet>, first: nat, g: RtpHeader, qs: seq<Packet>)
    requires Consecutive(ps, first) && g.seqNo == (first + |ps|) % 0x1_0000
    requires forall k :: 0 <= k < |qs| ==> qs[k].header == g.(seqNo := (g.seqNo + k) % 0x1_0000)
    ensures Consecutive(ps + qs, first)
  {
    forall k | |ps| <= k < |ps + qs| ensures (ps + qs)[k].header.seqNo == (first + k) % 0x1_0000 {
      AddTwice(first, |ps|, k - |ps|);
    }
  }

  lemma {:induction false} RunIsConsecutive(h: RtpHeader, fps: nat, frames: seq<Input>)
    requires h.Valid() && 0 < fps
    ensures Consecutive(RunOf(h, fps, frames), h.seqNo)
    decreases |frames|
  {
    if frames != [] {
      var init := frames[..|frames| - 1];
      var (frame, after) := frames[|frames| - 1];
      var g := HeaderAfterAll(h, fps, init);
      RunIsConsecutive(h, fps, init);
      HeaderCounts(h, fps, init);
      PacketHeaders(g, frame, after);
      hide PacketsOf, HeaderAfterAll, Consecutive;
      ConsecutiveAppend(RunOf(h, fps, init), h.seqNo, g, PacketsOf(g, frame, after));
    }
  }

  /** The k-th packet of a run carries sequence number h.seqNo + k mod 2^16. */
  lemma SequenceNumbers(h: RtpHeader, fps: nat, frames: seq<Input>, k: nat)
    requires h.Valid() && 0 < fps && k < |RunOf(h, fps, frames)|
    ensures RunOf(h, fps, frames)[k].header.seqNo == (h.seqNo + k) % 0x1_0000
  {
    RunIsConsecutive(h, fps, frames);
  }

  /** The packets of frame i are what the run adds at that frame, and all of them carry the
      timestamp h.timestamp + 12000 / FPS times the number of timed frames before it, mod 2^32. */
  lemma Timestamps(h: RtpHeader, fps: nat, frames: seq<Input>, i: nat)
    requires h.Valid() && 0 < fps && i < |frames|
    ensures var before, through := RunOf(h, fps, frames[..i]), RunOf(h, fps, frames[..i + 1]);
            && before <= through
            && forall k :: |before| <= k < |through| ==>
                 through[k].header.timestamp == (h.timestamp + 12000 / fps * TimedFrames(frames[..i])) % 0x1_0000_0000
  {
    assert frames[..i + 1][..i] == frames[..i];
    HeaderCounts(h, fps, frames[..i]);
    TicksPerTimedFrame(fps, frames[..i]);
    PacketHeaders(HeaderAfterAll(h, fps, frames[..i]), frames[i].0, frames[i].1);
  }
}
