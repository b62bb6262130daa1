/**
 AACMediaSource at the end of its file.

 The calls that follow the last frame parse the bytes behind the end, which are those of an older
 block in files of at least two arrays.
 */
module AdtsEnd {
  import opened Bytes
  import opened Ring
  import opened RingEnd
  import opened Adts

  /** The reader stands at p, and beside the block it stands in there are only old bytes. */
  ghost predicate ReaderAt(r: Ring, p: nat) {
    Beside(r, Begin(r), p)
  }

  lemma ReaderMovesOn(r: Ring, p: nat, n: nat)
    requires ReaderAt(r, p) && r.offset + n < 2 * r.cap && p + n <= |r.file|
    ensures var (r', next) := Jump(r, Begin(r), n);
            r'.OnBuffer(next) && ReaderAt(SetOffset(r', next), p + n)
  {
    assert r.Valid() && r.OnBuffer(Begin(r));
    JumpBeside(r, Begin(r), p, n);
    hide Jump, Beside;
    var (r', next) := Jump(r, Begin(r), n);
    SetOffsetKeeps(r', next, p + n);
  }

  /** A frame that fits moves the reader on by its size, however often a block is loaded. */
  lemma CopyJumps(r: Ring, p: nat, size: nat)
    requires 8 <= r.cap && AtPosition(r, p) && HEADER < size && Fits(p, size, r.cap, |r.file|) && p + size <= |r.file|
    ensures var (r', next) := Jump(r, Begin(r), size); r'.OnBuffer(next) && Copy(r, size).0 == SetOffset(r', next)
  {
    if r.offset + HEADER < r.cap {
      CopyWithin(r, size);
      JumpLands(r, Begin(r), size);
      hide AtPosition, Copy;
    } else {
      LoadIsNewest(r, r.cur, p - r.offset);
      assert Load(r, Other(r.cur)).eof;
      hide AtPosition, Load;
    }
  }

  lemma CopyBeside(r: Ring, p: nat, size: nat)
    requires 8 <= r.cap && ReaderAt(r, p) && HEADER < size && Fits(p, size, r.cap, |r.file|) && p + size <= |r.file|
    ensures ReaderAt(Copy(r, size).0, p + size)
  {
    CopyJumps(r, p, size);
    ReaderMovesOn(r, p, size);
    hide Copy, StandsAt, Jump, Old;
  }

  /** Reading a frame keeps what is beside it. */
  lemma OneCall(r: Ring, p: nat, f: AdtsFrame)
    requires r.Valid() && 8 <= r.cap && ReaderAt(r, p) && FrameAt(r, p, f) && Fits(p, f.header.aacFrameLength, r.cap, |r.file|)
    ensures Reads(r, p, f.header.aacFrameLength, f.body) && ReaderAt(GetFrame(r).0, p + f.header.aacFrameLength)
  {
    ReadsIffFits(r, p, f);
    FrameBeside(r, p, f);
    hide *;
  }

  lemma FrameBeside(r: Ring, p: nat, f: AdtsFrame)
    requires r.Valid() && 8 <= r.cap && ReaderAt(r, p) && FrameAt(r, p, f) && Fits(p, f.header.aacFrameLength, r.cap, |r.file|)
    ensures ReaderAt(GetFrame(r).0, p + f.header.aacFrameLength)
  {
    CopyBeside(r, p, f.header.aacFrameLength);
    GetFrameCopies(r, p, f);
    hide GetFrame, Copy, StandsAt, Parse, Print, Old;
  }

  // ----- The call after the last frame -----

  /** The bytes behind the end of the file begin no frame: the file is shorter than both arrays, or
      there is no syncword two arrays before its end. (A syncword that begins in the last byte
      of the array is looked for in the byte behind the array.) */
  predicate Quiet(file: seq<byte>, cap: nat)
    requires 2 <= cap
  {
    || |file| < 2 * cap
    || file[|file| - 2 * cap] != 0xFF
    || (|file| % cap + 1 < cap && !HasSyncword(file[|file| - 2 * cap], file[|file| - 2 * cap + 1]))
  }

  /** At the end of the file the reader looks at old bytes. */
  lemma EndShowsOldBytes(r: Ring)
    requires ReaderAt(r, |r.file|)
    ensures r.eof && r.eofArr == r.cur && r.offset == |r.file| % r.cap == r.remain
    ensures forall j :: r.offset <= j < r.cap ==> r.Array(r.cur)[j] == OldByte(r.file, r.cap, |r.file| - r.offset + j)
  {
  }

  /** Whatever a parsed header says, copying a frame moves the reader. */
  lemma CopyMoves(r: Ring, size: nat)
    requires r.Valid() && r.eof && 8 <= r.cap && HEADER <= size && r.offset + HEADER <= r.cap
    ensures Copy(r, size) != (r, Frame([]))
  {
    hide Load;
  }

  /** After the last frame a call returns the empty frame and stays there if and only if the bytes
      behind the end are quiet. */
  lemma EndIsQuietIff(r: Ring)
    requires 8 <= r.cap && ReaderAt(r, |r.file|)
    ensures GetFrame(r) == (r, Frame([])) <==> Quiet(r.file, r.cap)
  {
    EndShowsOldBytes(r);
    var a, off := r.Array(r.cur), r.offset;
    assert a[off] == OldByte(r.file, r.cap, |r.file|);
    assert off + 1 < r.cap ==> a[off + 1] == OldByte(r.file, r.cap, |r.file| + 1);
    hide Old, OldByte, Beside, AtPosition, Copy, Parse, Load;
    if a[off] == 0xFF && off + HEADER <= r.cap && HasSyncword(a[off], a[off + 1]) {
      var h := a[off..off + HEADER];
      SyncwordParses(h);
      if HEADER <= Parse(h).value.aacFrameLength {
        CopyMoves(r, Parse(h).value.aacFrameLength);
      }
    }
  }

  // ----- Whole files -----

  /** What call number i returns. */
  function Fetch(r: Ring, i: nat): Fetched
    requires r.Valid() && 8 <= r.cap
    decreases i
  {
    var (r', frame) := GetFrame(r);
    if i == 0 then frame else Fetch(r', i - 1)
  }

  /** The reader after n calls. */
  function AfterCalls(r: Ring, n: nat): (r': Ring)
    requires r.Valid() && 8 <= r.cap
    ensures r'.Valid() && r'.cap == r.cap && r'.file == r.file
    decreases n
  {
    if n == 0 then r else AfterCalls(GetFrame(r).0, n - 1)
  }

  lemma {:induction false} FetchAfterCalls(r: Ring, n: nat, i: nat)
    requires r.Valid() && 8 <= r.cap
    ensures Fetch(r, n + i) == Fetch(AfterCalls(r, n), i)
    decreases n
  {
    hide GetFrame;
    if n > 0 {
      FetchAfterCalls(GetFrame(r).0, n - 1, i);
    }
  }

  /** Frames that fit are read one after the other, and the reader arrives at the end. */
  lemma {:induction false} ReachesEnd(r: Ring, p: nat, frames: seq<AdtsFrame>)
    requires r.Valid() && 8 <= r.cap && p <= |r.file| && ReaderAt(r, p)
    requires AllValid(frames) && r.file[p..] == File(frames) && AllFit(frames, p, r.cap, |r.file|)
    ensures forall i :: 0 <= i < |frames| ==> Fetch(r, i) == Frame(frames[i].body)
    ensures ReaderAt(AfterCalls(r, |frames|), |r.file|)
    decreases |frames|
  {
    hide GetFrame, Beside, Print, Fits;
    if frames == [] {
      assert p == |r.file|;
    } else {
      var f := frames[0];
      FirstFrameIsThere(r, p, frames);
      OneCall(r, p, f);
      var r' := GetFrame(r).0;
      ReachesEnd(r', p + f.header.aacFrameLength, frames[1..]);
      forall i | 0 <= i < |frames| ensures Fetch(r, i) == Frame(frames[i].body) {
        assert i > 0 ==> Fetch(r', i - 1) == Frame(frames[1..][i - 1].body);
      }
    }
  }

  /** A file of frames that fit, whatever its length: the bodies come back in order, and the call
      after the last one returns the empty frame and stays if and only if what follows is quiet. */
  lemma EndsQuietlyIff(frames: seq<AdtsFrame>, cap: nat)
    requires AllValid(frames) && 8 <= cap && AllFit(frames, 0, cap, |File(frames)|)
    ensures forall i :: 0 <= i < |frames| ==> Fetch(Open(File(frames), cap), i) == Frame(frames[i].body)
    ensures var r := AfterCalls(Open(File(frames), cap), |frames|);
            GetFrame(r) == (r, Frame([])) <==> Quiet(File(frames), cap)
  {
    var file := File(frames);
    hide GetFrame, Beside, Print, AllFit, File, Quiet;
    OpenBeside(file, cap);
    assert file[0..] == file;
    ReachesEnd(Open(file, cap), 0, frames);
    EndIsQuietIff(AfterCalls(Open(file, cap), |frames|));
  }

  function BodyAt(frames: seq<AdtsFrame>, i: nat): seq<byte> {
    if i < |frames| then frames[i].body else []
  }

  lemma {:induction false} QuietForEver(r: Ring, i: nat)
    requires r.Valid() && 8 <= r.cap && GetFrame(r) == (r, Frame([]))
    ensures Fetch(r, i) == Frame([])
    decreases i
  {
    hide GetFrame;
    if i > 0 {
      QuietForEver(r, i - 1);
    }
  }

  /** If it is quiet behind the end, the bodies are followed by empty results for ever. */
  lemma FramesComeBack(frames: seq<AdtsFrame>, cap: nat, i: nat)
    requires AllValid(frames) && 8 <= cap && AllFit(frames, 0, cap, |File(frames)|) && Quiet(File(frames), cap)
    ensures Fetch(Open(File(frames), cap), i) == Frame(BodyAt(frames, i))
  {
    hide GetFrame, AllFit, File, Quiet;
    EndsQuietlyIff(frames, cap);
    if |frames| <= i {
      var r := Open(File(frames), cap);
      FetchAfterCalls(r, |frames|, i - |frames|);
      QuietForEver(AfterCalls(r, |frames|), i - |frames|);
    }
  }

  /** A file of at most one array has all its frames in one block. */
  lemma {:induction false} ShortFileFits(frames: seq<AdtsFrame>, p: nat, cap: nat, total: nat)
    requires AllValid(frames) && 0 < cap && p + |File(frames)| <= total <= cap
    ensures AllFit(frames, p, cap, total)
    decreases |frames|
  {
    hide Print;
    if frames != [] {
      assert p % cap == p;
      ShortFileFits(frames[1..], p + frames[0].header.aacFrameLength, cap, total);
    }
  }
}
