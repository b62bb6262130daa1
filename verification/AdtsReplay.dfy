/** AACMediaSource behind the end of a file that fills its last array: the two arrays hold the last
    two blocks, no load changes them any more, and the reader goes round them for ever. */
module AdtsReplay {
  import opened Bytes
  import opened Bits
  import opened Ring
  import opened RingEnd
  import opened Adts
  import opened AdtsEnd

  /** The arrays hold the two halves of last, the first half in array c, and the end is known. */
  ghost predicate Holding(r: Ring, c: nat, last: seq<byte>) {
    && r.Valid() && r.eof && 8 <= r.cap && c <= 1 && |last| == 2 * r.cap
    && r.Array(c) == last[..r.cap] && r.Array(Other(c)) == last[r.cap..]
  }

  /** The reader takes its next frame from position q of last. */
  ghost predicate At(r: Ring, c: nat, last: seq<byte>, q: nat) {
    && Holding(r, c, last) && q < 2 * r.cap
    && Begin(r) == if q < r.cap then Cursor(q, c) else Cursor(q - r.cap, Other(c))
  }

  /** The next position, going round. */
  function Next(q: nat, size: nat, cap: nat): nat {
    if q + size < 2 * cap then q + size else q + size - 2 * cap
  }

  /** The frames from position q on, none of which crosses from one half to the other. */
  ghost predicate InHalves(frames: seq<AdtsFrame>, q: nat, cap: nat)
    decreases |frames|
  {
    frames == []
    || (var size := frames[0].header.aacFrameLength;
        && q < 2 * cap && q + size <= (if q < cap then cap else 2 * cap)
        && InHalves(frames[1..], q + size, cap))
  }

  lemma HalfShows(r: Ring, c: nat, last: seq<byte>, q: nat, n: nat)
    requires At(r, c, last, q) && q + n <= if q < r.cap then r.cap else 2 * r.cap
    ensures r.offset + n <= r.cap && r.Array(r.cur)[r.offset..r.offset + n] == last[q..q + n]
  {
  }

  lemma JumpGoesRound(r: Ring, c: nat, last: seq<byte>, q: nat, n: nat)
    requires At(r, c, last, q) && 1 <= n && q + n <= if q < r.cap then r.cap else 2 * r.cap
    ensures var (r', next) := Jump(r, Begin(r), n);
            r' == r && r.OnBuffer(next) && At(SetOffset(r, next), c, last, Next(q, n, r.cap))
  {
    assert Holding(SetOffset(r, Jump(r, Begin(r), n).1), c, last);
  }

  /** A frame there is read, and the reader goes on to the next one. */
  lemma ReadsRound(r: Ring, c: nat, last: seq<byte>, q: nat, f: AdtsFrame)
    requires At(r, c, last, q) && f.Valid()
    requires q + f.header.aacFrameLength <= if q < r.cap then r.cap else 2 * r.cap
    requires last[q..q + HEADER] == Print(f.header) && last[q + HEADER..q + f.header.aacFrameLength] == f.body
    ensures GetFrame(r).1 == Frame(f.body)
    ensures GetFrame(r).0.cap == r.cap && At(GetFrame(r).0, c, last, Next(q, f.header.aacFrameLength, r.cap))
  {
    var size := f.header.aacFrameLength;
    HalfShows(r, c, last, q, HEADER);
    HalfShows(r, c, last, q, size);
    SecondByte(f.header);
    ParsePrint(f.header);
    assert f.body == r.Array(r.cur)[r.offset + HEADER..r.offset + size] by {
      assert last[q..q + size][HEADER..] == last[q + HEADER..q + size];
    }
    hide Parse, GetFrame, Copy, Jump, Print, HasSyncword, Holding, Next;
    AfterHeader(r, size);
    CopyWithin(r, size);
    JumpGoesRound(r, c, last, q, size);
  }

  /** From position q on, last consists of frame k and those behind it. */
  ghost predicate Rest(last: seq<byte>, q: nat, tail: seq<AdtsFrame>, k: nat, cap: nat) {
    && AllValid(tail) && k <= |tail| && q <= |last| == 2 * cap
    && last[q..] == File(tail[k..]) && InHalves(tail[k..], q, cap)
  }

  /** The reader stands before frame k of the frames that last consists of. */
  ghost predicate Before(r: Ring, c: nat, last: seq<byte>, q: nat, tail: seq<AdtsFrame>, k: nat) {
    At(r, c, last, q) && k < |tail| && Rest(last, 0, tail, 0, r.cap) && Rest(last, q, tail, k, r.cap)
  }

  function NextIndex(k: nat, n: nat): (j: nat)
    requires k < n
    ensures j < n
  {
    if k + 1 == n then 0 else k + 1
  }

  lemma OneRound(r: Ring, c: nat, last: seq<byte>, q: nat, tail: seq<AdtsFrame>, k: nat)
    requires r.Valid() && 8 <= r.cap && Before(r, c, last, q, tail, k)
    ensures GetFrame(r).1 == Frame(tail[k].body) && GetFrame(r).0.cap == r.cap
    ensures Before(GetFrame(r).0, c, last, Next(q, tail[k].header.aacFrameLength, r.cap), tail, NextIndex(k, |tail|))
  {
    hide GetFrame, Parse, Print, At, File, Rest;
    FrameIsThere(last, q, tail, k, r.cap);
    ReadsRound(r, c, last, q, tail[k]);
    RestEnds(last, q + tail[k].header.aacFrameLength, tail, k + 1, r.cap);
  }

  lemma FrameIsThere(last: seq<byte>, q: nat, tail: seq<AdtsFrame>, k: nat, cap: nat)
    requires k < |tail| && Rest(last, q, tail, k, cap)
    ensures var f := tail[k]; var size := f.header.aacFrameLength;
            && f.Valid() && q < 2 * cap && q + size <= (if q < cap then cap else 2 * cap) <= |last|
            && last[q..q + HEADER] == Print(f.header) && last[q + HEADER..q + size] == f.body
            && Rest(last, q + size, tail, k + 1, cap)
  {
    assert tail[k..][0] == tail[k] && tail[k..][1..] == tail[k + 1..];
    hide Print, File;
    FirstFrame(last, q, tail[k..]);
  }

  /** The frames end where last ends. */
  lemma RestEnds(last: seq<byte>, q: nat, tail: seq<AdtsFrame>, k: nat, cap: nat)
    requires Rest(last, q, tail, k, cap)
    ensures k == |tail| <==> q == 2 * cap
  {
    hide Print, InHalves;
  }

  /** The frame that comes i frames after frame k, going round. */
  function Turn(k: nat, i: nat, n: nat): (t: nat)
    requires k < n
    ensures t < n
    decreases i
  {
    if i == 0 then k else Turn(NextIndex(k, n), i - 1, n)
  }

  /** The frames of last come round and round. */
  lemma {:induction false} GoesRound(r: Ring, c: nat, last: seq<byte>, q: nat, tail: seq<AdtsFrame>, k: nat, i: nat)
    requires r.Valid() && 8 <= r.cap && k < |tail| && Before(r, c, last, q, tail, k)
    ensures Fetch(r, i) == Frame(tail[Turn(k, i, |tail|)].body)
    decreases i
  {
    hide GetFrame, Before, Next, NextIndex;
    OneRound(r, c, last, q, tail, k);
    if i > 0 {
      assert NextIndex(k, |tail|) < |tail| && GetFrame(r).0.Valid();
      GoesRound(GetFrame(r).0, c, last, Next(q, tail[k].header.aacFrameLength, r.cap), tail, NextIndex(k, |tail|), i - 1);
    }
  }

  // ----- Files that end with their last array -----

  lemma NextBoundary(p: nat, t: nat, cap: nat)
    requires 0 < cap && p < t && t % cap == 0
    ensures p - p % cap + cap <= t
  {
    var a, b := p / cap, t / cap;
    assert p == cap * a + p % cap && t == cap * b;
    if b <= a {
      AtLeast(cap, b, a);
    } else {
      AtLeast(cap, a + 1, b);
      OneMore(a, cap);
    }
  }

  lemma AtLeast(d: nat, x: nat, y: nat)
    requires x <= y
    ensures d * x <= d * y
  {
  }

  /** In a file of whole blocks a frame that fits lies in one block. */
  lemma LiesInOneBlock(p: nat, size: nat, cap: nat, total: nat)
    requires 0 < cap && HEADER < size && Fits(p, size, cap, total) && p + size <= total && total % cap == 0
    ensures p % cap + size <= cap
  {
    NextBoundary(p, total, cap);
    if p % cap + HEADER == cap {
      NextBoundary(p + HEADER, total, cap);
      NextOffset(p, HEADER, cap);
    }
  }

  /** So a frame begins at every block boundary t. */
  lemma {:induction false} FramesFrom(frames: seq<AdtsFrame>, p: nat, t: nat, cap: nat, total: nat) returns (k: nat)
    requires 0 < cap && AllValid(frames) && AllFit(frames, p, cap, total) && total == p + |File(frames)|
    requires total % cap == 0 && t % cap == 0 && p <= t <= total
    ensures k <= |frames| && File(frames[k..]) == File(frames)[t - p..] && AllFit(frames[k..], t, cap, total)
    decreases |frames|
  {
    if p == t {
      k := 0;
      assert frames[0..] == frames && File(frames)[0..] == File(frames);
    } else {
      var size := frames[0].header.aacFrameLength;
      assert |File(frames)| == size + |File(frames[1..])|;
      LiesInOneBlock(p, size, cap, total);
      NextBoundary(p, t, cap);
      hide Print, Fits;
      k := FramesFrom(frames[1..], p + size, t, cap, total);
      k := k + 1;
      assert frames[1..][k - 1..] == frames[k..];
      assert File(frames)[size..] == File(frames[1..]);
      assert File(frames)[t - p..] == File(frames)[size..][t - p - size..];
    }
  }

  lemma LiesInOneHalf(p: nat, size: nat, t: nat, cap: nat, total: nat)
    requires 0 < cap && HEADER < size && Fits(p, size, cap, total) && p + size <= total == t + 2 * cap
    requires t % cap == 0 && total % cap == 0 && t <= p
    ensures p - t < 2 * cap && p - t + size <= if p - t < cap then cap else 2 * cap
  {
    LiesInOneBlock(p, size, cap, total);
    NextOffset(t, p - t, cap);
  }

  lemma {:induction false} FitInHalves(frames: seq<AdtsFrame>, p: nat, t: nat, cap: nat, total: nat)
    requires 0 < cap && AllValid(frames) && AllFit(frames, p, cap, total) && total == p + |File(frames)| == t + 2 * cap
    requires t % cap == 0 && total % cap == 0 && t <= p
    ensures InHalves(frames, p - t, cap)
    decreases |frames|
  {
    if frames != [] {
      var size := frames[0].header.aacFrameLength;
      assert |File(frames)| == size + |File(frames[1..])|;
      hide Print, Fits, File;
      LiesInOneHalf(p, size, t, cap, total);
      FitInHalves(frames[1..], p + size, t, cap, total);
    }
  }

  /** At the end of such a file the arrays hold its last two blocks. */
  lemma EndHolds(r: Ring)
    requires 8 <= r.cap && ReaderAt(r, |r.file|) && |r.file| % r.cap == 0 && 2 * r.cap <= |r.file|
    ensures At(r, r.cur, r.file[|r.file| - 2 * r.cap..], 0)
  {
    var last := r.file[|r.file| - 2 * r.cap..];
    EndShowsOldBytes(r);
    assert forall j :: 0 <= j < r.cap ==> r.Array(r.cur)[j] == last[j];
    assert forall j :: 0 <= j < r.cap ==> r.Array(Other(r.cur))[j] == last[r.cap + j];
  }

  /** A file that ends with its last array. */
  ghost predicate FillsBlocks(frames: seq<AdtsFrame>, cap: nat)
    requires 0 < cap
  {
    && AllValid(frames) && AllFit(frames, 0, cap, |File(frames)|)
    && |File(frames)| % cap == 0 && 2 * cap <= |File(frames)|
  }

  /** The frames of its last two blocks. */
  ghost predicate InLastBlocks(frames: seq<AdtsFrame>, cap: nat, k: nat) {
    && k < |frames| && AllValid(frames) && 2 * cap <= |File(frames)|
    && File(frames[k..]) == File(frames)[|File(frames)| - 2 * cap..]
  }

  lemma LastFrames(frames: seq<AdtsFrame>, cap: nat) returns (k: nat)
    requires 0 < cap && FillsBlocks(frames, cap)
    ensures InLastBlocks(frames, cap, k) && InHalves(frames[k..], 0, cap)
  {
    var file := File(frames);
    var t := |file| - 2 * cap;
    BlockBefore(|file|, cap);
    hide Print, File, Fits, AllFit;
    k := FramesFrom(frames, 0, t, cap, |file|);
    assert file[t - 0..] == file[t..];
    NoFrames();
    assert frames[|frames|..] == [];
    FitInHalves(frames[k..], t, t, cap, |file|);
  }

  lemma NoFrames()
    ensures File([]) == []
  {
  }

  lemma ArrivesAtEnd(frames: seq<AdtsFrame>, cap: nat)
    requires 8 <= cap && AllValid(frames) && AllFit(frames, 0, cap, |File(frames)|)
    ensures ReaderAt(AfterCalls(Open(File(frames), cap), |frames|), |File(frames)|)
  {
    hide Print, File, AllFit, Beside, GetFrame;
    OpenBeside(File(frames), cap);
    assert File(frames)[0..] == File(frames);
    ReachesEnd(Open(File(frames), cap), 0, frames);
  }

  lemma EndIsBefore(frames: seq<AdtsFrame>, cap: nat, k: nat)
    requires 8 <= cap && FillsBlocks(frames, cap) && InLastBlocks(frames, cap, k) && InHalves(frames[k..], 0, cap)
    ensures var r := AfterCalls(Open(File(frames), cap), |frames|);
            Before(r, r.cur, File(frames)[|File(frames)| - 2 * cap..], 0, frames[k..], 0)
  {
    hide Print, File, AllFit, At, ReaderAt, GetFrame, InHalves, Open, AfterCalls;
    ArrivesAtEnd(frames, cap);
    EndHolds(AfterCalls(Open(File(frames), cap), |frames|));
    var tail, last := frames[k..], File(frames)[|File(frames)| - 2 * cap..];
    assert tail[0..] == tail && last[0..] == last;
  }

  /** A file of frames that fit, whose length is a multiple of the capacity and at least two arrays:
      when all its frames have been read, the frames of its last two blocks are served again, and
      again for ever. */
  lemma LastBlocksAreReplayed(frames: seq<AdtsFrame>, cap: nat, i: nat) returns (k: nat)
    requires 8 <= cap && FillsBlocks(frames, cap)
    ensures InLastBlocks(frames, cap, k)
    ensures Fetch(Open(File(frames), cap), |frames| + i) == Frame(frames[k + Turn(0, i, |frames| - k)].body)
  {
    hide Before, GetFrame, File, AfterCalls, Fetch, FillsBlocks, InHalves, Open;
    k := LastFrames(frames, cap);
    EndIsBefore(frames, cap, k);
    var file := File(frames);
    var r := AfterCalls(Open(file, cap), |frames|);
    FetchAfterCalls(Open(file, cap), |frames|, i);
    GoesRound(r, r.cur, file[|file| - 2 * cap..], 0, frames[k..], 0, i);
  }

  lemma BlockBefore(n: nat, cap: nat)
    requires 0 < cap && n % cap == 0 && 2 * cap <= n
    ensures (n - 2 * cap) % cap == 0
  {
    var q := n / cap;
    assert n == cap * q;
    AtLeast(cap, Min(q, 1), 1);
    assert n - 2 * cap == cap * (q - 2) + 0;
    Digit(q - 2, 0, cap);
  }

  /** A frame of one byte, eight bytes in the file. */
  function OneByteFrame(b: byte): (f: AdtsFrame)
    ensures f.Valid() && f.header.aacFrameLength == 8 && f.body == [b]
  {
    AdtsFrame(AdtsHeader(0, 0, 1, 1, 3, 0, 2, 0, 0, 0, 0, 8, 0x7FF, 0), [b])
  }

  lemma TwoFrames(f: AdtsFrame, g: AdtsFrame)
    requires f.Valid() && g.Valid()
    ensures File([f, g]) == Print(f.header) + f.body + (Print(g.header) + g.body)
    ensures File([g]) == Print(g.header) + g.body
  {
    hide Print;
    NoFrames();
    assert [f, g][1..] == [g] && [g][1..] == [];
    assert Print(g.header) + g.body + [] == Print(g.header) + g.body;
  }

  lemma TwoFramesFit(f: AdtsFrame, g: AdtsFrame)
    requires f.Valid() && g.Valid() && f.header.aacFrameLength == 8 && g.header.aacFrameLength == 8
    ensures AllValid([f, g]) && |File([f, g])| == 16 && |File([g])| == 8 && AllFit([f, g], 0, 8, 16)
  {
    TwoFrames(f, g);
    hide File, Print;
    assert [f, g][1..] == [g] && [g][1..] == [];
    assert AllFit([g], 8, 8, 16);
  }

  /** For instance: behind two frames that fill two arrays of eight bytes the first one is served
      once more. */
  lemma FirstFrameIsServedAgain(f: AdtsFrame, g: AdtsFrame)
    requires f.Valid() && g.Valid() && f.header.aacFrameLength == 8 && g.header.aacFrameLength == 8
    ensures AllValid([f, g]) && AllFit([f, g], 0, 8, |File([f, g])|) && |File([f, g])| == 2 * 8
    ensures Fetch(Open(File([f, g]), 8), 2) == Frame(f.body)
  {
    hide AllFit, Fetch, Open, File, InLastBlocks;
    TwoFramesFit(f, g);
    var k := LastBlocksAreReplayed([f, g], 8, 0);
    OnlyTheFirst(f, g, k);
  }

  lemma OnlyTheFirst(f: AdtsFrame, g: AdtsFrame, k: nat)
    requires InLastBlocks([f, g], 8, k) && |File([f, g])| == 16 && |File([g])| == 8
    ensures k == 0
  {
    hide File;
    assert [f, g][1..] == [g];
  }

  /** With these bytes. */
  lemma ServedAgain()
    ensures Fetch(Open(File([OneByteFrame(1), OneByteFrame(2)]), 8), 2) == Frame([1])
  {
    hide Fetch, Open, File;
    FirstFrameIsServedAgain(OneByteFrame(1), OneByteFrame(2));
  }
}
