/**
 ADTS, the framing of AAC files: the seven header bytes of ISO/IEC 14496-3, the parser
 parseAdtsHeader, and AACMediaSource::GetFrameFromFile, which steps from frame to frame.

 The parser is written in arithmetic, (b & 0xC0) >> 6 as b / 64; MasksAreDigits proves that the
 masks and shifts of the source come to the same.
 */
module Adts {
  import opened Bytes
  import opened Bits
  import opened Ring
  import opened RingEnd

  /** struct AdtsHeader without syncword, which stays 0. */
  datatype AdtsHeader = AdtsHeader(
    id: nat, layer: nat, protectionAbsent: nat, profile: nat, samplingFreqIndex: nat, privateBit: nat,
    channelCfg: nat, originalCopy: nat, home: nat,
    copyrightIdentificationBit: nat, copyrightIdentificationStart: nat,
    aacFrameLength: nat, adtsBufferFullness: nat, numberOfRawDataBlockInFrame: nat)
  {
    predicate Valid() {
      && id < 2 && layer < 4 && protectionAbsent < 2 && profile < 4 && samplingFreqIndex < 16 && privateBit < 2
      && channelCfg < 8 && originalCopy < 2 && home < 2
      && copyrightIdentificationBit < 2 && copyrightIdentificationStart < 2
      && aacFrameLength < 0x2000 && adtsBufferFullness < 0x800 && numberOfRawDataBlockInFrame < 4
    }
  }

  const HEADER: nat := 7

  /** The header as the standard lays it out. */
  function Print(h: AdtsHeader): (b: seq<byte>)
    requires h.Valid()
    ensures |b| == HEADER
  {
    [0xFF,
     0xF0 + 8 * h.id + 2 * h.layer + h.protectionAbsent,
     64 * h.profile + 4 * h.samplingFreqIndex + 2 * h.privateBit + h.channelCfg / 4,
     64 * (h.channelCfg % 4) + 32 * h.originalCopy + 16 * h.home + 8 * h.copyrightIdentificationBit
     + 4 * h.copyrightIdentificationStart + h.aacFrameLength / 0x800,
     h.aacFrameLength / 8 % 256,
     32 * (h.aacFrameLength % 8) + h.adtsBufferFullness / 64,
     4 * (h.adtsBufferFullness % 64) + h.numberOfRawDataBlockInFrame]
  }

  predicate HasSyncword(b0: byte, b1: byte) {
    b0 == 0xFF && b1 / 16 == 15
  }

  /** parseAdtsHeader as written. In `in[3] & 0x04 >> 2` the shift binds tighter than the mask,
      so copyrightIdentificationStart is bit 0 of in[3]. */
  function Parse(b: seq<byte>): Option<AdtsHeader>
    requires HEADER <= |b|
  {
    if !HasSyncword(b[0], b[1]) then None else
      var b1: nat, b2: nat, b3: nat, b4: nat, b5: nat, b6: nat := b[1], b[2], b[3], b[4], b[5], b[6];
      Some(AdtsHeader(
             b1 / 8 % 2, b1 / 2 % 4, b1 % 2, b2 / 64, b2 / 4 % 16, b2 / 2 % 2,
             4 * (b2 % 2) + b3 / 64, b3 / 32 % 2, b3 / 16 % 2,
             b3 / 8 % 2, b3 % 2,
             0x800 * (b3 % 4) + 8 * b4 + b5 / 32, 64 * (b5 % 32) + b6 / 4, b6 % 4))
  }

  // ----- The masks of the source -----

  /** parseAdtsHeader with its masks and shifts. */
  function ParseMasks(b: seq<byte>): Option<AdtsHeader>
    requires HEADER <= |b|
  {
    if !(b[0] == 0xFF && And(b[1], 0xF0) == 0xF0) then None else
      Some(AdtsHeader(
             Shr(And(b[1], 0x08), 3), Shr(And(b[1], 0x06), 1), And(b[1], 0x01),
             Shr(And(b[2], 0xC0), 6), Shr(And(b[2], 0x3C), 2), Shr(And(b[2], 0x02), 1),
             Or(Shl(And(b[2], 0x01), 2), Shr(And(b[3], 0xC0), 6)),
             Shr(And(b[3], 0x20), 5), Shr(And(b[3], 0x10), 4),
             Shr(And(b[3], 0x08), 3), And(b[3], Shr(0x04, 2)),
             Or(Or(Shl(And(b[3], 0x03), 11), Shl(And(b[4], 0xFF), 3)), Shr(And(b[5], 0xE0), 5)),
             Or(Shl(And(b[5], 0x1F), 6), Shr(And(b[6], 0xFC), 2)), And(b[6], 0x03)))
  }

  lemma MasksAreDigits(b: seq<byte>)
    requires HEADER <= |b|
    ensures ParseMasks(b) == Parse(b)
  {
    hide And, Or, Shl, Shr, Pow2;
    SecondMasks(b[1]);
    ThirdMasks(b[2], b[3]);
    FourthMasks(b[3]);
    LengthMasks(b[3], b[4], b[5]);
    FullnessMasks(b[5], b[6]);
  }

  lemma SecondMasks(b: byte)
    ensures And(b, 0xF0) == 0xF0 <==> b / 16 == 15
    ensures Shr(And(b, 0x08), 3) == b / 8 % 2 && Shr(And(b, 0x06), 1) == b / 2 % 4 && And(b, 0x01) == b % 2
  {
    Powers();
    hide *;
    Field(b, 0xF0, 4, 4);
    Field(b, 0x08, 3, 1);
    Field(b, 0x06, 1, 2);
    LowMask(b, 1);
  }

  lemma ThirdMasks(b: byte, c: byte)
    ensures Shr(And(b, 0xC0), 6) == b / 64 && Shr(And(b, 0x3C), 2) == b / 4 % 16 && Shr(And(b, 0x02), 1) == b / 2 % 2
    ensures Or(Shl(And(b, 0x01), 2), Shr(And(c, 0xC0), 6)) == 4 * (b % 2) + c / 64
  {
    Powers();
    hide *;
    Field(b, 0xC0, 6, 2);
    Field(b, 0x3C, 2, 4);
    Field(b, 0x02, 1, 1);
    LowMask(b, 1);
    Field(c, 0xC0, 6, 2);
    ShlIsTimes(b % 2, 2);
    Sum(b % 2, 4, c / 64, 2);
  }

  lemma FourthMasks(b: byte)
    ensures Shr(And(b, 0x20), 5) == b / 32 % 2 && Shr(And(b, 0x10), 4) == b / 16 % 2 && Shr(And(b, 0x08), 3) == b / 8 % 2
    ensures And(b, Shr(0x04, 2)) == b % 2
  {
    Powers();
    ShrIsDivision(0x04, 2);
    hide *;
    Field(b, 0x20, 5, 1);
    Field(b, 0x10, 4, 1);
    Field(b, 0x08, 3, 1);
    LowMask(b, 1);
  }

  lemma LengthMasks(b: byte, c: byte, d: byte)
    ensures Or(Or(Shl(And(b, 0x03), 11), Shl(And(c, 0xFF), 3)), Shr(And(d, 0xE0), 5)) == 0x800 * (b % 4) + 8 * c + d / 32
  {
    Powers();
    hide *;
    LowMask(b, 2);
    LowMask(c, 8);
    Field(d, 0xE0, 5, 3);
    ShlIsTimes(b % 4, 11);
    ShlIsTimes(c, 3);
    Sum(b % 4, 0x800, 8 * c, 11);
    Sum(0x100 * (b % 4) + c, 8, d / 32, 3);
  }

  lemma FullnessMasks(b: byte, c: byte)
    ensures Or(Shl(And(b, 0x1F), 6), Shr(And(c, 0xFC), 2)) == 64 * (b % 32) + c / 4
    ensures And(c, 0x03) == c % 4
  {
    Powers();
    hide *;
    LowMask(b, 5);
    Field(c, 0xFC, 2, 6);
    LowMask(c, 2);
    ShlIsTimes(b % 32, 6);
    Sum(b % 32, 64, c / 4, 6);
  }

  // ----- Parsing inverts printing -----

  lemma SyncwordParses(b: seq<byte>)
    requires HEADER <= |b|
    ensures Parse(b).Some? <==> HasSyncword(b[0], b[1])
  {
  }

  lemma SecondByte(h: AdtsHeader)
    requires h.Valid()
    ensures var b := Print(h)[1];
            && b / 16 == 15 && b / 8 % 2 == h.id && b / 2 % 4 == h.layer && b % 2 == h.protectionAbsent
  {
    SecondByteDigits(h.id, h.layer, h.protectionAbsent);
  }

  lemma SecondByteDigits(i: nat, l: nat, a: nat)
    requires i < 2 && l < 4 && a < 2
    ensures var b := 0xF0 + 8 * i + 2 * l + a;
            b / 16 == 15 && b / 8 % 2 == i && b / 2 % 4 == l && b % 2 == a
  {
    Digit(15, 8 * i + 2 * l + a, 16);
    Digit(30 + i, 2 * l + a, 8);
    Digit(120 + 4 * i + l, a, 2);
  }

  lemma ThirdByte(h: AdtsHeader)
    requires h.Valid()
    ensures var b := Print(h)[2];
            && b / 64 == h.profile && b / 4 % 16 == h.samplingFreqIndex && b / 2 % 2 == h.privateBit
            && b % 2 == h.channelCfg / 4
  {
    ThirdByteDigits(h.profile, h.samplingFreqIndex, h.privateBit, h.channelCfg / 4);
  }

  lemma ThirdByteDigits(f: nat, s: nat, v: nat, c: nat)
    requires f < 4 && s < 16 && v < 2 && c < 2
    ensures var b := 64 * f + 4 * s + 2 * v + c;
            b / 64 == f && b / 4 % 16 == s && b / 2 % 2 == v && b % 2 == c
  {
    Digit(f, 4 * s + 2 * v + c, 64);
    Digit(16 * f + s, 2 * v + c, 4);
    Digit(32 * f + 2 * s + v, c, 2);
  }

  lemma FourthByte(h: AdtsHeader)
    requires h.Valid()
    ensures var b := Print(h)[3];
            && b / 64 == h.channelCfg % 4 && b / 32 % 2 == h.originalCopy && b / 16 % 2 == h.home
            && b / 8 % 2 == h.copyrightIdentificationBit
            && b % 4 == h.aacFrameLength / 0x800 && b % 2 == h.aacFrameLength / 0x800 % 2
  {
    var q, n := h.channelCfg % 4, h.aacFrameLength / 0x800;
    FourthByteDigits(q, h.originalCopy, h.home, h.copyrightIdentificationBit, h.copyrightIdentificationStart, n);
  }

  lemma FourthByteDigits(q: nat, o: nat, m: nat, i: nat, s: nat, n: nat)
    requires q < 4 && o < 2 && m < 2 && i < 2 && s < 2 && n < 4
    ensures var b := 64 * q + 32 * o + 16 * m + 8 * i + 4 * s + n;
            && b / 64 == q && b / 32 % 2 == o && b / 16 % 2 == m && b / 8 % 2 == i && b % 4 == n && b % 2 == n % 2
  {
    HighDigits(q, o, m, 8 * i + 4 * s + n);
    LowDigits(4 * q + 2 * o + m, i, s, n);
  }

  lemma HighDigits(q: nat, o: nat, m: nat, low: nat)
    requires q < 4 && o < 2 && m < 2 && low < 16
    ensures var b := 64 * q + 32 * o + 16 * m + low;
            b / 64 == q && b / 32 % 2 == o && b / 16 % 2 == m
  {
    Digit(q, 32 * o + 16 * m + low, 64);
    Digit(2 * q + o, 16 * m + low, 32);
    Digit(4 * q + 2 * o + m, low, 16);
  }

  lemma LowDigits(high: nat, i: nat, s: nat, n: nat)
    requires i < 2 && s < 2 && n < 4
    ensures var b := 16 * high + 8 * i + 4 * s + n;
            b / 8 % 2 == i && b % 4 == n && b % 2 == n % 2
  {
    Digit(2 * high + i, 4 * s + n, 8);
    Digit(4 * high + 2 * i + s, n, 4);
    Digit(2 * (4 * high + 2 * i + s) + n / 2, n % 2, 2);
  }

  lemma LastBytes(h: AdtsHeader)
    requires h.Valid()
    ensures var b := Print(h);
            && b[5] / 32 == h.aacFrameLength % 8 && b[5] % 32 == h.adtsBufferFullness / 64
            && b[6] / 4 == h.adtsBufferFullness % 64 && b[6] % 4 == h.numberOfRawDataBlockInFrame
  {
  }

  /** The parser reads every field back, except that for copyrightIdentificationStart it returns
      bit 11 of the frame length. */
  lemma ParsePrint(h: AdtsHeader)
    requires h.Valid()
    ensures Parse(Print(h)) == Some(h.(copyrightIdentificationStart := h.aacFrameLength / 0x800 % 2))
  {
    SecondByte(h);
    ThirdByte(h);
    FourthByte(h);
    LastBytes(h);
    LengthBits(h.aacFrameLength);
    hide Print;
  }

  lemma LengthBits(n: nat)
    requires n < 0x2000
    ensures 0x800 * (n / 0x800) + 8 * (n / 8 % 256) + n % 8 == n
  {
  }

  /** So parsing inverts printing exactly for headers in which the two bits agree. */
  lemma ParseInvertsPrintIff(h: AdtsHeader)
    requires h.Valid()
    ensures Parse(Print(h)) == Some(h) <==> h.copyrightIdentificationStart == h.aacFrameLength / 0x800 % 2
  {
    ParsePrint(h);
    hide Parse, Print;
  }

  // ----- Stepping through a file -----

  /** What a call of GetFrameFromFile does: return a frame (empty if there is no syncword), throw
      because of a length below seven, or leave an array: while parsing or copying, or by moving
      the offset one past it. */
  datatype Fetched = Frame(data: seq<byte>) | Throws | OutOfBounds

  /** GetFrameFromFile as written. */
  function GetFrame(r: Ring): (res: (Ring, Fetched))
    requires r.Valid() && 8 <= r.cap
    ensures res.0.Valid() && res.0.cap == r.cap && res.0.file == r.file
  {
    var it := Begin(r);
    var a := r.Array(it.arr);
    if a[it.offset] != 0xFF then (r, Frame([]))
    else if r.cap <= it.offset + 1 then (r, OutOfBounds)
    else if !HasSyncword(a[it.offset], a[it.offset + 1]) then (r, Frame([]))
    else if r.cap < it.offset + HEADER then (r, OutOfBounds)
    else
      var size := Parse(a[it.offset..it.offset + HEADER]).value.aacFrameLength;
      if size < HEADER then (r, Throws) else Copy(r, size)
  }

  /** The rest of GetFrameFromFile for a frame of this size: memcpy and SetOffect. */
  function Copy(r: Ring, size: nat): (res: (Ring, Fetched))
    requires r.Valid() && 8 <= r.cap && HEADER <= size
    ensures res.0.Valid() && res.0.cap == r.cap && res.0.file == r.file
  {
    var (r1, from) := Jump(r, Begin(r), HEADER);
    if r.cap < from.offset + size - HEADER then (r1, OutOfBounds) else
      var frame := r1.Array(from.arr)[from.offset..from.offset + size - HEADER];
      var (r2, next) := Jump(r1, Begin(r), size);
      if next.offset == r.cap then (r2, OutOfBounds) else (SetOffset(r2, next), Frame(frame))
  }

  /** When a call throws: a whole header is there, and the frame length in it is below seven. */
  lemma ThrowsIff(r: Ring)
    requires r.Valid() && 8 <= r.cap
    ensures var a, i := r.Array(r.cur), r.offset;
            GetFrame(r).1 == Throws <==>
              && i + 7 <= r.cap && a[i] == 0xFF && And(a[i + 1], 0xF0) == 0xF0
              && a[i + 3] % 4 == 0 && a[i + 4] == 0 && a[i + 5] / 32 < 7
  {
    var a, i := r.Array(r.cur), r.offset;
    if i + 7 <= r.cap {
      SecondMasks(a[i + 1]);
    }
    hide And, Copy;
    forall size: nat | HEADER <= size ensures Copy(r, size).1 != Throws {
      CopyNeverThrows(r, size);
    }
  }

  lemma CopyNeverThrows(r: Ring, size: nat)
    requires r.Valid() && 8 <= r.cap && HEADER <= size
    ensures Copy(r, size).1 != Throws
  {
    hide Jump;
  }

  datatype AdtsFrame = AdtsFrame(header: AdtsHeader, body: seq<byte>)
  {
    /** A header without checksum, with the right length, and at least one byte. */
    predicate Valid() {
      header.Valid() && header.aacFrameLength == HEADER + |body| && body != []
    }
  }

  ghost predicate AllValid(frames: seq<AdtsFrame>) {
    forall i :: 0 <= i < |frames| ==> frames[i].Valid()
  }

  function File(frames: seq<AdtsFrame>): seq<byte>
    requires AllValid(frames)
  {
    if frames == [] then [] else Print(frames[0].header) + frames[0].body + File(frames[1..])
  }

  lemma JumpLands(r: Ring, c: Cursor, n: nat)
    requires r.Valid() && r.OnBuffer(c)
    ensures var (r', next) := Jump(r, c, n); next.offset == r.cap || r'.OnBuffer(next)
  {
  }

  // ----- Reading a file of frames -----

  /** The reader will take its next frame from position p of the file. */
  ghost predicate AtPosition(r: Ring, p: nat) {
    Placed(r, Begin(r), p)
  }

  /** The call returns body and moves on by size bytes. */
  ghost predicate Reads(r: Ring, p: nat, size: nat, body: seq<byte>)
    requires r.Valid() && 8 <= r.cap
  {
    GetFrame(r).1 == Frame(body) && AtPosition(GetFrame(r).0, p + size)
  }

  /** A frame of this size at position p lies in one block; or only its header does, its body is
      shorter than a block and the file ends in that block, so that loading it twice, once for
      (it+7) and once for (it+size), does no harm. */
  predicate Fits(p: nat, size: nat, cap: nat, total: nat)
    requires 0 < cap
  {
    || p % cap + size <= cap
    || (p % cap + HEADER == cap && size < HEADER + cap && total < p - p % cap + 2 * cap)
  }

  /** The frame at position p. */
  ghost predicate FrameAt(r: Ring, p: nat, f: AdtsFrame) {
    && f.Valid()
    && p + f.header.aacFrameLength <= |r.file|
    && r.file[p..p + HEADER] == Print(f.header)
    && r.file[p + HEADER..p + f.header.aacFrameLength] == f.body
  }

  /** Moving on by n bytes, across one boundary at most. */
  lemma JumpMovesOn(r: Ring, p: nat, n: nat)
    requires AtPosition(r, p) && r.offset + n < 2 * r.cap && p + n <= |r.file|
    ensures var (r', next) := Jump(r, Begin(r), n);
            r'.OnBuffer(next) && AtPosition(SetOffset(r', next), p + n)
  {
    assert r.Valid() && r.OnBuffer(Begin(r));
    hide Load, Holds, Newest;
    if r.cap <= r.offset + n {
      CrossPlaced(r, Begin(r), p, n);
    } else {
      PlacedWithin(r, Begin(r), p, n);
    }
    PlacedBySetOffset(Jump(r, Begin(r), n).0, Jump(r, Begin(r), n).1, p + n);
  }

  /** A boundary crossed twice, with file left after the first crossing, loses the position. */
  lemma CrossingTwiceLosesPosition(r: Ring, p: nat, n: nat)
    requires AtPosition(r, p) && r.cap <= r.offset + n < 2 * r.cap && p - r.offset + 2 * r.cap <= |r.file|
    ensures var (r', next) := Jump(Load(r, Other(r.cur)), Begin(r), n);
            r'.OnBuffer(next) && !AtPosition(SetOffset(r', next), p + n)
  {
    var base := p - r.offset;
    LoadIsNewest(r, r.cur, base);
    NextOffset(p, n, r.cap);
    ReloadIsNewest(Load(r, Other(r.cur)), Other(r.cur), base + r.cap);
  }

  lemma HeaderStraddles(r: Ring, p: nat, f: AdtsFrame)
    requires 8 <= r.cap && AtPosition(r, p) && FrameAt(r, p, f) && r.cap < r.offset + HEADER
    ensures GetFrame(r) == (r, OutOfBounds) && !Fits(p, f.header.aacFrameLength, r.cap, |r.file|)
  {
    var h := r.file[p..p + HEADER];
    assert h[0] == r.file[p] && h[1] == r.file[p + 1];
    SecondByte(f.header);
    hide Parse, Copy;
  }

  lemma HeaderIsRead(r: Ring, p: nat, f: AdtsFrame)
    requires 8 <= r.cap && AtPosition(r, p) && FrameAt(r, p, f) && r.offset + HEADER <= r.cap
    ensures var h := r.Array(r.cur)[r.offset..r.offset + HEADER];
            && h[0] == 0xFF && HasSyncword(h[0], h[1])
            && Parse(h).Some? && Parse(h).value.aacFrameLength == f.header.aacFrameLength
  {
    assert r.Array(r.cur)[r.offset..r.offset + HEADER] == r.file[p..p + HEADER];
    SecondByte(f.header);
    ParsePrint(f.header);
    hide Parse;
  }

  /** What GetFrame does once the header is known. */
  lemma AfterHeader(r: Ring, size: nat)
    requires r.Valid() && 8 <= r.cap && r.offset + HEADER <= r.cap && HEADER < size
    requires var h := r.Array(r.cur)[r.offset..r.offset + HEADER];
             && h[0] == 0xFF && HasSyncword(h[0], h[1])
             && Parse(h).Some? && Parse(h).value.aacFrameLength == size
    ensures GetFrame(r) == Copy(r, size)
  {
    var a := r.Array(r.cur);
    var h := a[r.offset..r.offset + HEADER];
    assert h[0] == a[r.offset] && h[1] == a[r.offset + 1];
    hide Parse, HasSyncword, Jump;
  }

  /** A call reads the frame it stands at and moves on to the next one if and only if it fits. */
  lemma ReadsIffFits(r: Ring, p: nat, f: AdtsFrame)
    requires r.Valid() && 8 <= r.cap && AtPosition(r, p) && FrameAt(r, p, f)
    ensures Reads(r, p, f.header.aacFrameLength, f.body) <==> Fits(p, f.header.aacFrameLength, r.cap, |r.file|)
  {
    if r.cap < r.offset + HEADER {
      HeaderStraddles(r, p, f);
    } else {
      WholeHeaderReadsIffFits(r, p, f);
    }
  }

  lemma WholeHeaderReadsIffFits(r: Ring, p: nat, f: AdtsFrame)
    requires r.Valid() && 8 <= r.cap && AtPosition(r, p) && FrameAt(r, p, f) && r.offset + HEADER <= r.cap
    ensures Reads(r, p, f.header.aacFrameLength, f.body) <==> Fits(p, f.header.aacFrameLength, r.cap, |r.file|)
  {
    CopiesIffFits(r, p, f);
    GetFrameCopies(r, p, f);
    hide Copy, GetFrame, AtPosition, Fits, FrameAt, File, Print, HasSyncword;
  }

  lemma GetFrameCopies(r: Ring, p: nat, f: AdtsFrame)
    requires 8 <= r.cap && AtPosition(r, p) && FrameAt(r, p, f) && r.offset + HEADER <= r.cap
    ensures GetFrame(r) == Copy(r, f.header.aacFrameLength)
  {
    HeaderIsRead(r, p, f);
    hide GetFrame, Copy, Parse, Print, HasSyncword;
    AfterHeader(r, f.header.aacFrameLength);
  }

  lemma FitsByHeader(p: nat, size: nat, cap: nat, total: nat)
    requires 0 < cap && HEADER < size && p % cap + HEADER <= cap
    ensures p % cap + HEADER < cap ==> (Fits(p, size, cap, total) <==> p % cap + size <= cap)
    ensures p % cap + HEADER == cap ==>
              (Fits(p, size, cap, total) <==> size < HEADER + cap && total < p - p % cap + 2 * cap)
  {
  }

  lemma CopiesIffFits(r: Ring, p: nat, f: AdtsFrame)
    requires 8 <= r.cap && AtPosition(r, p) && FrameAt(r, p, f) && r.offset + HEADER <= r.cap
    ensures var size := f.header.aacFrameLength; var (r', res) := Copy(r, size);
            (res == Frame(f.body) && AtPosition(r', p + size)) <==> Fits(p, size, r.cap, |r.file|)
  {
    var size := f.header.aacFrameLength;
    assert r.Valid() && r.offset == p % r.cap && HEADER < size && p + size <= |r.file| && f.body == r.file[p + HEADER..p + size];
    hide Copy, AtPosition, FrameAt, Fits;
    CopiesIfFits(r, p, size);
  }

  lemma CopiesIfFits(r: Ring, p: nat, size: nat)
    requires 8 <= r.cap && AtPosition(r, p) && r.Valid() && r.offset == p % r.cap && r.offset + HEADER <= r.cap
    requires HEADER < size && p + size <= |r.file|
    ensures var (r', res) := Copy(r, size);
            (res == Frame(r.file[p + HEADER..p + size]) && AtPosition(r', p + size)) <==> Fits(p, size, r.cap, |r.file|)
  {
    hide Copy, AtPosition, Fits;
    FitsByHeader(p, size, r.cap, |r.file|);
    if r.offset + HEADER < r.cap {
      BodyInSameBlock(r, p, size);
    } else {
      BodyInNextBlock(r, p, size);
    }
  }

  lemma BodyInSameBlock(r: Ring, p: nat, size: nat)
    requires 8 <= r.cap && AtPosition(r, p) && r.offset + HEADER < r.cap && HEADER < size && p + size <= |r.file|
    ensures var (r', res) := Copy(r, size);
            if r.offset + size <= r.cap then res == Frame(r.file[p + HEADER..p + size]) && AtPosition(r', p + size)
            else res == OutOfBounds
  {
    if r.offset + size <= r.cap {
      CopyWithin(r, size);
      JumpMovesOn(r, p, size);
      BlockHolds(r, p, HEADER, size);
    } else {
      assert Jump(r, Begin(r), HEADER).1.offset == r.offset + HEADER;
    }
    hide AtPosition, Jump;
  }

  lemma CopyWithin(r: Ring, size: nat)
    requires r.Valid() && 8 <= r.cap && HEADER < size && r.offset + size <= r.cap
    ensures var (r', next) := Jump(r, Begin(r), size);
            Copy(r, size) == (SetOffset(r', next), Frame(r.Array(r.cur)[r.offset + HEADER..r.offset + size]))
  {
    assert Jump(r, Begin(r), HEADER) == (r, Cursor(r.offset + HEADER, r.cur));
    JumpLands(r, Begin(r), size);
    hide Load;
  }

  lemma BlockHolds(r: Ring, p: nat, i: nat, j: nat)
    requires AtPosition(r, p) && i <= j && r.offset + j <= r.cap && p + j <= |r.file|
    ensures r.Array(r.cur)[r.offset + i..r.offset + j] == r.file[p + i..p + j]
  {
  }

  /** A body that starts a block: (it+7) loads that block, and (it+size) loads once more. */
  lemma BodyInNextBlock(r: Ring, p: nat, size: nat)
    requires 8 <= r.cap && AtPosition(r, p) && r.offset + HEADER == r.cap && HEADER < size && p + size <= |r.file|
    ensures var (r', res) := Copy(r, size);
            if HEADER + r.cap <= size then res == OutOfBounds
            else res == Frame(r.file[p + HEADER..p + size])
                 && (AtPosition(r', p + size) <==> |r.file| < p - r.offset + 2 * r.cap)
  {
    var other := Other(r.cur);
    var r1 := Load(r, other);
    assert Jump(r, Begin(r), HEADER) == (r1, Cursor(0, other));
    if size < HEADER + r.cap {
      NextBlockHolds(r, p, size);
      if |r.file| < p - r.offset + 2 * r.cap {
        LoadIsNewest(r, r.cur, p - r.offset);
        assert Jump(r, Begin(r), size) == Jump(r1, Begin(r), size);
        JumpMovesOn(r, p, size);
      } else {
        CrossingTwiceLosesPosition(r, p, size);
      }
      hide AtPosition, Jump, Load;
    } else {
      hide AtPosition, Jump, Load;
    }
  }

  lemma NextBlockHolds(r: Ring, p: nat, j: nat)
    requires AtPosition(r, p) && r.offset + HEADER == r.cap
    requires HEADER <= j < HEADER + r.cap && p + j <= |r.file|
    ensures Load(r, Other(r.cur)).Array(Other(r.cur))[..j - HEADER] == r.file[p + HEADER..p + j]
  {
    LoadIsNewest(r, r.cur, p - r.offset);
    hide Load;
  }

  /** One call after another reads these frames, from position p on. */
  ghost predicate ReadsAll(r: Ring, p: nat, frames: seq<AdtsFrame>)
    requires r.Valid() && 8 <= r.cap
    decreases |frames|
  {
    frames == []
    || (var size := frames[0].header.aacFrameLength;
        && Reads(r, p, size, frames[0].body)
        && ReadsAll(GetFrame(r).0, p + size, frames[1..]))
  }

  ghost predicate AllFit(frames: seq<AdtsFrame>, p: nat, cap: nat, total: nat)
    requires 0 < cap
    decreases |frames|
  {
    frames == []
    || (var size := frames[0].header.aacFrameLength;
        && Fits(p, size, cap, total)
        && AllFit(frames[1..], p + size, cap, total))
  }

  /** The bytes of a list of frames begin with the first frame. */
  lemma FirstFrame(s: seq<byte>, p: nat, frames: seq<AdtsFrame>)
    requires p <= |s| && AllValid(frames) && frames != [] && s[p..] == File(frames)
    ensures var f := frames[0]; var size := f.header.aacFrameLength;
            && p + size <= |s| && s[p..p + HEADER] == Print(f.header) && s[p + HEADER..p + size] == f.body
            && s[p + size..] == File(frames[1..])
  {
    var f, rest := frames[0], File(frames[1..]);
    var header := Print(f.header);
    assert File(frames) == header + f.body + rest;
    hide Print, File;
    assert header + f.body + rest == header + (f.body + rest);
    CutTwo(s, p, header, f.body + rest);
    CutTwo(s, p + HEADER, f.body, rest);
  }

  lemma FirstFrameIsThere(r: Ring, p: nat, frames: seq<AdtsFrame>)
    requires p <= |r.file| && AllValid(frames) && frames != [] && r.file[p..] == File(frames)
    ensures var f := frames[0]; FrameAt(r, p, f) && r.file[p + f.header.aacFrameLength..] == File(frames[1..])
  {
    hide Print, File;
    FirstFrame(r.file, p, frames);
  }

  lemma {:induction false} ReadsAllFrom(r: Ring, p: nat, frames: seq<AdtsFrame>)
    requires r.Valid() && 8 <= r.cap && p <= |r.file| && AtPosition(r, p)
    requires AllValid(frames) && r.file[p..] == File(frames)
    ensures ReadsAll(r, p, frames) <==> AllFit(frames, p, r.cap, |r.file|)
    decreases |frames|
  {
    hide GetFrame, StandsAt, Print, Fits, Parse;
    if frames != [] {
      FirstFrameIsThere(r, p, frames);
      ReadsIffFits(r, p, frames[0]);
      if Reads(r, p, frames[0].header.aacFrameLength, frames[0].body) {
        ReadsAllFrom(GetFrame(r).0, p + frames[0].header.aacFrameLength, frames[1..]);
      }
    }
  }

  /** For a file of ADTS frames of any length, the calls of GetFrameFromFile return the frames'
      bodies in order, each moving on to the next frame, exactly when every frame fits. */
  lemma ReadsAllIffAllFit(frames: seq<AdtsFrame>, cap: nat)
    requires AllValid(frames) && 8 <= cap
    ensures ReadsAll(Open(File(frames), cap), 0, frames) <==> AllFit(frames, 0, cap, |File(frames)|)
  {
    var file := File(frames);
    OpenIsNewest(file, cap);
    assert file[0..] == file;
    assert 0 % cap == 0;
    ReadsAllFrom(Open(file, cap), 0, frames);
  }
}
