/**
 The splitter on files of any length.

 Loading a block is harmless when it happens once. The splitter looks ahead with temporary
 iterators, so a block boundary is crossed more than once when a start code, or bytes that could
 begin one, reach it; in files that keep clear of that the splitter is exact.
 */
module H264Long {
  import opened Bytes
  import opened Bits
  import opened Ring
  import opened RingEnd
  import opened AnnexB
  import opened H264Splitter
  import opened H264Exact

  /** The last byte that the two tests for a start code look at. */
  function AheadSeen(file: seq<byte>, cap: nat, q: nat): (k: nat)
    ensures k <= 3
  {
    if Seen(file, cap, q) != 0 then 0
    else if Seen(file, cap, q + 1) != 0 then 1
    else if Seen(file, cap, q + 2) != 0 then 2
    else 3
  }

  /** The start code the two tests find. */
  function CodeSeen(file: seq<byte>, cap: nat, q: nat): nat {
    if Seen(file, cap, q) == 0 && Seen(file, cap, q + 1) == 0 && Seen(file, cap, q + 2) == 1 then 3
    else if Seen(file, cap, q) == 0 && Seen(file, cap, q + 1) == 0 && Seen(file, cap, q + 2) == 0 && Seen(file, cap, q + 3) == 1 then 4
    else 0
  }

  /** Looking for a start code at q stays in the block of q, or that block is the last one. */
  predicate StaysClear(file: seq<byte>, cap: nat, q: nat)
    requires 0 < cap
  {
    q % cap + AheadSeen(file, cap, q) < cap || |file| < q - q % cap + cap
  }

  /** The unit at p: its start code ends before its block does, and it ends in its own or the next
      block. */
  predicate UnitStaysClear(file: seq<byte>, cap: nat, p: nat)
    requires 0 < cap && CodeAt(file, p) != 0 && p <= |file|
  {
    var k := CodeAt(file, p);
    p % cap + k < cap && NextCode(file, p + k) < p - p % cap + 2 * cap
  }

  ghost predicate Clear(file: seq<byte>, cap: nat)
    requires 0 < cap
  {
    forall q :: 0 <= q <= |file| ==>
      && CodeSeen(file, cap, q) == CodeAt(file, q)
      && StaysClear(file, cap, q)
      && (CodeAt(file, q) != 0 ==> UnitStaysClear(file, cap, q))
  }

  // ----- One position -----

  lemma PeekSees(r: Ring, c: Cursor, q: nat, k: nat)
    requires 4 <= r.cap && Beside(r, c, q) && r.OnBuffer(c) && k <= 3 && (c.offset + k < r.cap || r.eof)
    ensures PeekAt(r, c, k) == (r, Seen(r.file, r.cap, q + k))
  {
    LookAheadShows(r, c, q, k);
    hide Jump, Beside, Seen;
  }

  lemma FirstByte(r: Ring, c: Cursor, q: nat)
    requires 4 <= r.cap && Beside(r, c, q)
    ensures Peek(r, c) == Seen(r.file, r.cap, q)
  {
    LookAheadShows(r, c, q, 0);
    hide Beside, Seen;
  }

  /** The end is known to a reader in the last block. */
  lemma EndIsKnown(r: Ring, c: Cursor, q: nat)
    requires Beside(r, c, q)
    ensures r.Valid() && r.OnBuffer(c) && c.offset == q % r.cap && (r.eof <==> |r.file| < q - c.offset + r.cap)
    ensures r.eof ==> r.eofArr == c.arr
  {
  }

  lemma FindCodeSees(r: Ring, c: Cursor, q: nat)
    requires 4 <= r.cap && Beside(r, c, q) && StaysClear(r.file, r.cap, q)
    ensures r.OnBuffer(c) && FindCode(r, c) == (r, CodeSeen(r.file, r.cap, q))
  {
    hide Beside, StartCode3, StartCode4, Seen;
    EndIsKnown(r, c, q);
    StartCode3Sees(r, c, q);
    StartCode4Sees(r, c, q);
  }

  /** Each of the tests reads on only as long as the bytes are right so far. */
  lemma StartCode3Sees(r: Ring, c: Cursor, q: nat)
    requires 4 <= r.cap && Beside(r, c, q) && r.OnBuffer(c) && StaysClear(r.file, r.cap, q)
    ensures StartCode3(r, c)
         == (r, Seen(r.file, r.cap, q) == 0 && Seen(r.file, r.cap, q + 1) == 0 && Seen(r.file, r.cap, q + 2) == 1)
  {
    EndIsKnown(r, c, q);
    hide Beside, PeekAt, Peek, Seen;
    var n := AheadSeen(r.file, r.cap, q);
    FirstByte(r, c, q);
    if 1 <= n { PeekSees(r, c, q, 1); }
    if 2 <= n { PeekSees(r, c, q, 2); }
  }

  lemma StartCode4Sees(r: Ring, c: Cursor, q: nat)
    requires 4 <= r.cap && Beside(r, c, q) && r.OnBuffer(c) && StaysClear(r.file, r.cap, q)
    ensures StartCode4(r, c)
         == (r, Seen(r.file, r.cap, q) == 0 && Seen(r.file, r.cap, q + 1) == 0 && Seen(r.file, r.cap, q + 2) == 0
                && Seen(r.file, r.cap, q + 3) == 1)
  {
    EndIsKnown(r, c, q);
    hide Beside, PeekAt, Peek, Seen;
    var n := AheadSeen(r.file, r.cap, q);
    FirstByte(r, c, q);
    if 1 <= n { PeekSees(r, c, q, 1); }
    if 2 <= n { PeekSees(r, c, q, 2); }
    if 3 <= n { PeekSees(r, c, q, 3); }
  }

  /** The inverted comparison is never true in the block read last. */
  lemma NeverTakenForEnd(r: Ring, c: Cursor, q: nat)
    requires Beside(r, c, q)
    ensures !Equal(c, End(r))
  {
    EndIsKnown(r, c, q);
    hide Beside;
  }

  // ----- One call -----

  /** Where a scan that began in array a, at the block at base, has got to. */
  ghost predicate Scanned(r: Ring, a: nat, base: nat, r': Ring, c': Cursor, n: nat) {
    && base <= n && Beside(r', c', n) && r'.file == r.file && r'.cap == r.cap && Begin(r') == Begin(r)
    && if n < base + r.cap then r' == r && c' == Cursor(n - base, a)
       else c' == Cursor(n - base - r.cap, Other(a)) && Holds(r', a, base)
  }

  lemma NewestHere(r: Ring, c: Cursor, q: nat)
    requires Beside(r, c, q)
    ensures r.Valid() && r.OnBuffer(c) && c.offset <= q && c.arr <= 1 && Newest(r, c.arr, q - c.offset) && Holds(r, c.arr, q - c.offset)
    ensures q < |r.file| && c.offset == r.cap - 1 ==> !r.eof
  {
    hide Holds, Old;
  }

  lemma CrossingScanned(r: Ring, c: Cursor, q: nat, r': Ring, c': Cursor, n: nat)
    requires Beside(r, c, q) && q < |r.file| && c.offset == r.cap - 1
    requires q - c.offset + r.cap <= n < q - c.offset + 2 * r.cap
    requires Scanned(Load(r, Other(c.arr)), Other(c.arr), q - c.offset + r.cap, r', c', n)
    ensures Scanned(r, c.arr, q - c.offset, r', c', n)
  {
    hide Load, Beside, Holds, Newest, Scanned;
    NewestHere(r, c, q);
    LoadIsNewest(r, c.arr, q - c.offset);
    ScannedAcross(r, Load(r, Other(c.arr)), c.arr, q - c.offset, r', c', n);
  }

  lemma ScannedAcross(r: Ring, loaded: Ring, a: nat, base: nat, r': Ring, c': Cursor, n: nat)
    requires loaded.file == r.file && loaded.cap == r.cap && Begin(loaded) == Begin(r) && Holds(loaded, a, base) && a <= 1
    requires base + r.cap <= n < base + 2 * r.cap && Scanned(loaded, Other(a), base + r.cap, r', c', n)
    ensures Scanned(r, a, base, r', c', n)
  {
    hide Beside, Holds;
  }

  lemma ClearAt(file: seq<byte>, cap: nat, q: nat)
    requires 0 < cap && Clear(file, cap) && q <= |file|
    ensures CodeSeen(file, cap, q) == CodeAt(file, q) && StaysClear(file, cap, q)
    ensures CodeAt(file, q) != 0 ==> UnitStaysClear(file, cap, q)
  {
    hide CodeSeen, StaysClear, UnitStaysClear;
  }

  lemma ScanStops(r: Ring, c: Cursor, q: nat)
    requires 4 <= r.cap && Beside(r, c, q) && q <= |r.file| && Clear(r.file, r.cap)
    requires q == |r.file| || CodeAt(r.file, q) != 0
    ensures r.Valid() && r.OnBuffer(c) && Scan(r, c) == (r, c) && NextCode(r.file, q) == q
  {
    StepAdvances(r, c, q);
    ClearAt(r.file, r.cap, q);
    hide FindCode, Step, StaysClear, CodeSeen, Beside;
    FindCodeSees(r, c, q);
  }

  lemma ScanGoesOn(r: Ring, c: Cursor, q: nat)
    requires 4 <= r.cap && Beside(r, c, q) && q < |r.file| && Clear(r.file, r.cap) && CodeAt(r.file, q) == 0
    ensures r.Valid() && r.OnBuffer(c)
    ensures Scan(r, c) == Scan(Step(r, c).0, Step(r, c).1) && NextCode(r.file, q) == NextCode(r.file, q + 1)
  {
    StepAdvances(r, c, q);
    ClearAt(r.file, r.cap, q);
    hide FindCode, Step, StaysClear, CodeSeen, Beside;
    FindCodeSees(r, c, q);
  }

  lemma StandsBehind(r: Ring, c: Cursor, q: nat)
    requires Beside(r, c, q)
    ensures r.Valid() && r.OnBuffer(c) && c.offset <= q <= |r.file|
  {
  }

  lemma {:induction false} ScanIsClear(r: Ring, c: Cursor, q: nat) returns (r': Ring, c': Cursor)
    requires 4 <= r.cap && Beside(r, c, q) && r.Valid() && r.OnBuffer(c) && q <= |r.file| && Clear(r.file, r.cap)
    requires c.offset <= q && NextCode(r.file, q) < q - c.offset + 2 * r.cap
    ensures Scan(r, c) == (r', c') && Scanned(r, c.arr, q - c.offset, r', c', NextCode(r.file, q))
    decreases |r.file| - q
  {
    hide Scan, Beside, CodeAt, Clear, Holds, Load, NextCode;
    if q == |r.file| || CodeAt(r.file, q) != 0 {
      ScanStops(r, c, q);
      r', c' := r, c;
    } else {
      ScanGoesOn(r, c, q);
      StepBeside(r, c, q);
      StandsBehind(Step(r, c).0, Step(r, c).1, q + 1);
      r', c' := ScanIsClear(Step(r, c).0, Step(r, c).1, q + 1);
      if c.offset == r.cap - 1 {
        CrossingScanned(r, c, q, r', c', NextCode(r.file, q));
      }
    }
  }

  lemma UnitHasRoom(r: Ring, p: nat)
    requires 4 <= r.cap && Beside(r, Begin(r), p) && CodeAt(r.file, p) != 0 && p <= |r.file| && UnitStaysClear(r.file, r.cap, p)
    ensures var k := CodeAt(r.file, p);
            p + k <= |r.file| && r.offset <= p && r.offset + k < r.cap && NextCode(r.file, p + k) < p - r.offset + 2 * r.cap
  {
    EndIsKnown(r, Begin(r), p);
    StandsBehind(r, Begin(r), p);
    hide Beside, NextCode;
  }

  lemma UnitStarts(r: Ring, p: nat)
    requires 4 <= r.cap && Beside(r, Begin(r), p) && Clear(r.file, r.cap) && CodeAt(r.file, p) != 0 && p <= |r.file|
    ensures var k := CodeAt(r.file, p);
            && r.Valid() && r.OnBuffer(Begin(r)) && r.offset <= p && p + k <= |r.file| && 0 < k
            && FindCode(r, Begin(r)) == (r, k) && r.offset + k < r.cap
            && Beside(r, Cursor(r.offset + k, r.cur), p + k)
            && NextCode(r.file, p + k) < p - r.offset + 2 * r.cap
  {
    hide FindCode, Beside, Clear, CodeAt, NextCode, CodeSeen, StaysClear, UnitStaysClear;
    ClearAt(r.file, r.cap, p);
    UnitHasRoom(r, p);
    StandsBehind(r, Begin(r), p);
    FindCodeSees(r, Begin(r), p);
    MoveWithin(r, Begin(r), p, CodeAt(r.file, p));
  }

  /** The first steps: the start code at p and the scan behind it. */
  lemma UnitIsScanned(r: Ring, p: nat) returns (start: Cursor, r3: Ring, it: Cursor)
    requires 4 <= r.cap && Beside(r, Begin(r), p) && p <= |r.file| && Clear(r.file, r.cap) && CodeAt(r.file, p) != 0
    ensures r.Valid() && r.OnBuffer(Begin(r)) && p + CodeAt(r.file, p) <= |r.file| && r.offset <= p
    ensures var k := CodeAt(r.file, p); var n := NextCode(r.file, p + k);
            && FindCode(r, Begin(r)) == (r, k) && r.offset + k < r.cap && start == Cursor(r.offset + k, r.cur)
            && r.OnBuffer(start) && Beside(r, start, p + k)
            && Scan(r, start) == (r3, it) && Scanned(r, r.cur, p - r.offset, r3, it, n)
  {
    hide FindCode, Scan, Beside, Clear, CodeAt, NextCode, Scanned;
    UnitStarts(r, p);
    var k := CodeAt(r.file, p);
    start := Cursor(r.offset + k, r.cur);
    r3, it := ScanIsClear(r, start, p + k);
  }

  lemma CodeIsThere(s: seq<byte>, p: nat)
    requires CodeAt(s, p) != 0
    ensures p + CodeAt(s, p) <= |s| && 3 <= CodeAt(s, p) <= 4
  {
  }

  lemma GetUnitIsClear(r: Ring, p: nat) returns (r': Ring)
    requires r.Valid() && 4 <= r.cap && Beside(r, Begin(r), p) && p <= |r.file| && Clear(r.file, r.cap) && CodeAt(r.file, p) != 0
    ensures p + CodeAt(r.file, p) <= |r.file|
    ensures var k := CodeAt(r.file, p); var n := NextCode(r.file, p + k);
            && GetFrame(r) == (r', Some(r.file[p + k..n]))
            && Beside(r', Begin(r'), n) && r'.file == r.file && r'.cap == r.cap
  {
    hide FindCode, Scan, Beside, Clear, CodeAt, NextCode, DataBetween, Equal, End, GetFrame, Holds;
    CodeIsThere(r.file, p);
    var k := CodeAt(r.file, p);
    var n := NextCode(r.file, p + k);
    var start, r3, it := UnitIsScanned(r, p);
    NeverTakenForEnd(r, Begin(r), p);
    NeverTakenForEnd(r3, it, n);
    StandsBehind(r3, it, n);
    SliceOfUnit(r, r3, start, it, p - r.offset, p + k, n);
    SetOffsetKeeps(r3, it, n);
    CallGoes(r, r, k, r, start, r3, it, r3, start, r.file[p + k..n]);
    r' := SetOffset(r3, it);
  }

  lemma SliceOfUnit(r: Ring, r3: Ring, start: Cursor, it: Cursor, base: nat, from: nat, n: nat)
    requires r3.Valid() && r3.OnBuffer(start) && r3.OnBuffer(it) && base + start.offset == from <= n <= |r.file|
    requires Beside(r, start, from) && Scanned(r, start.arr, base, r3, it, n)
    ensures DataBetween(r3, start, it) == Some(r.file[from..n])
  {
    hide Beside, Holds, DataBetween, Begin;
    NewestHere(r, start, from);
    NewestHere(r3, it, n);
    SliceIsFileSlice(r3, start, it, base);
  }

  lemma GetNothing(r: Ring, p: nat)
    requires r.Valid() && 4 <= r.cap && Beside(r, Begin(r), p) && p <= |r.file| && Clear(r.file, r.cap) && CodeAt(r.file, p) == 0
    ensures GetFrame(r) == (r, Some([]))
  {
    hide FindCode, Scan, Beside, Clear, CodeAt, Equal, End, CodeSeen, StaysClear;
    ClearAt(r.file, r.cap, p);
    NeverTakenForEnd(r, Begin(r), p);
    FindCodeSees(r, Begin(r), p);
  }

  // ----- Whole files -----

  lemma {:induction false} FetchIsClear(r: Ring, p: nat, i: nat)
    requires r.Valid() && 4 <= r.cap && Beside(r, Begin(r), p) && p <= |r.file| && Clear(r.file, r.cap)
    ensures Fetch(r, i) == Some(NalAt(Split(r.file, p), i))
    decreases i
  {
    hide GetFrame, Beside, Clear, NextCode, CodeAt, NalAt, Split;
    NalAtSplit(r.file, p, i);
    if CodeAt(r.file, p) == 0 {
      GetNothing(r, p);
      if i > 0 {
        FetchIsClear(r, p, i - 1);
        NalAtSplit(r.file, p, i - 1);
      }
    } else {
      var r' := GetUnitIsClear(r, p);
      if i > 0 {
        FetchIsClear(r', NextCode(r.file, p + CodeAt(r.file, p)), i - 1);
      }
    }
  }

  /** For files of any length: if no look-ahead for a start code and no start code crosses a block
      boundary before the last block, no unit extends over two boundaries, and the bytes behind the
      end do not look like a start code, every unit comes out exactly. */
  lemma ClearIsExact(file: seq<byte>, cap: nat)
    requires 4 <= cap && Clear(file, cap)
    ensures Exact(file, cap)
  {
    forall i: nat ensures Fetch(Open(file, cap), i) == Some(NalAt(Split(file, 0), i)) {
      hide Clear, Fetch, Split, NalAt, Beside, Open;
      OpenBeside(file, cap);
      FetchIsClear(Open(file, cap), 0, i);
    }
  }

  // ----- Files that keep clear -----

  /** A start code at the beginning of every array, and the last block four bytes long. */
  function BlockFile(cap: nat, size: nat): (file: seq<byte>)
    requires 0 < cap
    ensures |file| == size
  {
    seq(size, i requires 0 <= i < size => if i % cap < 3 && i - i % cap + 6 < size then 0 else 1)
  }

  lemma ByteOfBlockFile(cap: nat, size: nat, q: nat, k: nat)
    requires 0 < cap && q % cap + k < cap && q + k < size
    ensures BlockFile(cap, size)[q + k] == if q % cap + k < 3 && q - q % cap + 6 < size then 0 else 1
  {
    assert q + k == cap * (q / cap) + (q % cap + k);
    Digit(q / cap, q % cap + k, cap);
    hide *;
  }

  /** Where the bytes are zero there is a start code, or the end of one. */
  lemma CodeInBlock(cap: nat, size: nat, q: nat)
    requires 7 <= cap && q % cap < 3 && q - q % cap + 6 < size
    ensures var file := BlockFile(cap, size);
            && CodeSeen(file, cap, q) == CodeAt(file, q) && StaysClear(file, cap, q)
            && CodeAt(file, q) == if q % cap == 0 then 4 else if q % cap == 1 then 3 else 0
  {
    ByteOfBlockFile(cap, size, q, 0);
    ByteOfBlockFile(cap, size, q, 1);
    ByteOfBlockFile(cap, size, q, 2);
    ByteOfBlockFile(cap, size, q, 3);
    hide BlockFile;
  }

  lemma NoCodeInBlock(cap: nat, size: nat, q: nat)
    requires 7 <= cap && q < size && (3 <= q % cap || size <= q - q % cap + 6)
    ensures var file := BlockFile(cap, size);
            CodeSeen(file, cap, q) == CodeAt(file, q) == 0 && StaysClear(file, cap, q)
  {
    ByteOfBlockFile(cap, size, q, 0);
    hide BlockFile;
  }

  lemma NoCodeAtEnd(cap: nat, size: nat)
    requires 7 <= cap && size % cap == 4 && 2 * cap <= size
    ensures var file := BlockFile(cap, size);
            CodeSeen(file, cap, size) == CodeAt(file, size) == 0 && StaysClear(file, cap, size)
  {
    assert size - 2 * cap == cap * (size / cap - 2) + 4;
    BlocksApart(cap, 0, cap);
    Digit(size / cap - 2, 4, cap);
    ByteOfBlockFile(cap, size, size - 2 * cap, 0);
    hide BlockFile;
  }

  lemma BlocksApart(cap: nat, m: nat, n: nat)
    requires 0 < cap && m % cap == 0 && n % cap == 0 && m < n
    ensures m + cap <= n
  {
    assert m == cap * (m / cap) && n == cap * (n / cap);
    TimesAtLeast(cap, n / cap - m / cap);
  }

  lemma NextBlock(cap: nat, q: nat)
    requires 0 < cap
    ensures (q - q % cap + cap) % cap == 0
  {
    Digit(q / cap + 1, 0, cap);
    assert q - q % cap + cap == cap * (q / cap + 1) + 0;
  }

  lemma UnitInBlock(cap: nat, size: nat, q: nat)
    requires 7 <= cap && q - q % cap + 6 < size && q % cap < 2
    ensures CodeAt(BlockFile(cap, size), q) != 0 && UnitStaysClear(BlockFile(cap, size), cap, q)
  {
    var next := q - q % cap + cap;
    CodeInBlock(cap, size, q);
    NextBlock(cap, q);
    if next + 6 < size {
      CodeInBlock(cap, size, next);
    }
    hide BlockFile, CodeAt, CodeSeen, StaysClear;
  }

  /** Files that keep clear can have any number of blocks. */
  lemma BlockFileIsClear(cap: nat, size: nat)
    requires 7 <= cap && size % cap == 4 && 2 * cap <= size
    ensures |BlockFile(cap, size)| == size && Clear(BlockFile(cap, size), cap)
  {
    var file := BlockFile(cap, size);
    hide BlockFile, CodeAt, CodeSeen, StaysClear, UnitStaysClear;
    forall q | 0 <= q <= size
      ensures CodeSeen(file, cap, q) == CodeAt(file, q) && StaysClear(file, cap, q)
      ensures CodeAt(file, q) != 0 ==> UnitStaysClear(file, cap, q)
    {
      if q == size {
        NoCodeAtEnd(cap, size);
      } else if q % cap < 3 && q - q % cap + 6 < size {
        CodeInBlock(cap, size, q);
        if q % cap < 2 {
          UnitInBlock(cap, size, q);
        }
      } else {
        NoCodeInBlock(cap, size, q);
      }
    }
  }

  // ----- A file that loses a block -----

  lemma NoCodeHere(r: Ring, c: Cursor)
    requires r.Valid() && 4 <= r.cap && r.OnBuffer(c) && Peek(r, c) != 0
    ensures FindCode(r, c) == (r, 0)
  {
  }

  lemma Code3Here(r: Ring, c: Cursor)
    requires r.Valid() && 4 <= r.cap && r.OnBuffer(c) && c.offset + 2 < r.cap
    requires r.Array(c.arr)[c.offset..c.offset + 3] == [0, 0, 1]
    ensures FindCode(r, c) == (r, 3)
  {
    var a := r.Array(c.arr);
    assert a[c.offset] == a[c.offset..c.offset + 3][0] && a[c.offset + 1] == a[c.offset..c.offset + 3][1];
    assert a[c.offset + 2] == a[c.offset..c.offset + 3][2];
  }

  lemma ScanPasses(r: Ring, c: Cursor)
    requires r.Valid() && 4 <= r.cap && r.OnBuffer(c) && Peek(r, c) != 0 && c.offset < r.cap - 1 && NotEqual(c, End(r))
    ensures Scan(r, c) == Scan(r, Cursor(c.offset + 1, c.arr))
  {
    hide FindCode;
    NoCodeHere(r, c);
    assert Step(r, c) == (r, Cursor(c.offset + 1, c.arr));
    hide Step;
  }

  lemma ScanFinds(r: Ring, c: Cursor)
    requires r.Valid() && 4 <= r.cap && r.OnBuffer(c) && c.offset + 2 < r.cap && NotEqual(c, End(r))
    requires r.Array(c.arr)[c.offset..c.offset + 3] == [0, 0, 1]
    ensures Scan(r, c) == (r, c)
  {
    hide FindCode, Step;
    Code3Here(r, c);
  }

  /** Three short NAL units behind 3-byte start codes; with arrays of eight bytes the second start
      code ends where the second block begins. */
  function LossyFile(): (file: seq<byte>)
    ensures |file| == 17
  {
    [0, 0, 1, 7, 7, 0, 0, 1, 8, 8, 8, 0, 0, 1, 9, 9, 5]
  }

  /** The reader on it: in front of its first unit, and of its second one. */
  function LossyReader(offset: nat): (r: Ring)
    requires offset < 8
    ensures r.Valid() && r.cap == 8
  {
    Ring(LossyFile(), 8, 8, [0, 0, 1, 7, 7, 0, 0, 1], [0, 0, 0, 0, 0, 0, 0, 0], false, -1, SIZE_MAX, offset, 0)
  }

  lemma LossyOpen()
    ensures Open(LossyFile(), 8) == LossyReader(0)
  {
    var f := LossyFile();
    assert f[0..8] == [0, 0, 1, 7, 7, 0, 0, 1];
    assert Zeros(8)[8..] == [] && Zeros(8) == [0, 0, 0, 0, 0, 0, 0, 0];
  }

  lemma LossyFirst()
    ensures GetFrame(LossyReader(0)) == (LossyReader(5), Some([7, 7]))
  {
    var r := LossyReader(0);
    Code3Here(r, Cursor(0, 0));
    ScanPasses(r, Cursor(3, 0));
    ScanPasses(r, Cursor(4, 0));
    ScanFinds(r, Cursor(5, 0));
    assert r.arr0[3..5] == [7, 7];
    CallGoes(r, r, 3, r, Cursor(3, 0), r, Cursor(5, 0), r, Cursor(3, 0), [7, 7]);
  }

  /** Then with the second block loaded, and with the third one over it. */
  function LossyLoaded(): (r: Ring)
    ensures r.Valid() && r.cap == 8
  {
    LossyReader(5).(arr1 := [8, 8, 8, 0, 0, 1, 9, 9], pos := 16)
  }

  function LossyOverwritten(): (r: Ring)
    ensures r.Valid() && r.cap == 8
  {
    LossyReader(5).(arr1 := [5, 8, 8, 0, 0, 1, 9, 9], pos := 17, eof := true, eofArr := 1, remain := 1)
  }

  lemma LossyLoads()
    ensures Load(LossyReader(5), 1) == LossyLoaded() && Load(LossyLoaded(), 1) == LossyOverwritten()
  {
    var f := LossyFile();
    assert f[8..16] == [8, 8, 8, 0, 0, 1, 9, 9] && f[16..17] == [5];
    assert [8, 8, 8, 0, 0, 1, 9, 9][1..] == [8, 8, 0, 0, 1, 9, 9];
  }

  lemma LossyScan()
    ensures Scan(LossyLoaded(), Cursor(0, 1)) == (LossyLoaded(), Cursor(3, 1))
  {
    var r := LossyLoaded();
    ScanPasses(r, Cursor(0, 1));
    ScanPasses(r, Cursor(1, 1));
    ScanPasses(r, Cursor(2, 1));
    ScanFinds(r, Cursor(3, 1));
  }

  /** The second call moves its iterator over the boundary and later begin() + 3 as well. */
  lemma LossySecond()
    ensures GetFrame(LossyReader(5)).1 == Some([5, 8, 8])
  {
    var r, r2, r4 := LossyReader(5), LossyLoaded(), LossyOverwritten();
    Code3Here(r, Cursor(5, 0));
    LossyLoads();
    LossyScan();
    assert r4.arr1[0..3] == [5, 8, 8];
    assert Jump(r, Cursor(5, 0), 3) == (r2, Cursor(0, 1)) && Jump(r2, Cursor(5, 0), 3) == (r4, Cursor(0, 1));
    assert DataBetween(r4, Cursor(0, 1), Cursor(3, 1)) == Some([5, 8, 8]);
    hide Load, Scan, FindCode, Jump, DataBetween, GetFrame;
    CallGoes(r, r, 3, r2, Cursor(0, 1), r2, Cursor(3, 1), r4, Cursor(0, 1), [5, 8, 8]);
  }

  lemma JoinOneMore(u: Unit, us: seq<Unit>, rest: seq<byte>)
    requires u.code == 3 && Join(us) == rest
    ensures Join([u] + us) == [0, 0, 1] + u.nal + rest
  {
    assert ([u] + us)[1..] == us;
  }

  function LossyUnit(i: nat): Unit {
    if i == 0 then Unit(3, [7, 7]) else if i == 1 then Unit(3, [8, 8, 8]) else Unit(3, [9, 9, 5])
  }

  lemma LossyCanonical()
    ensures Canonical([LossyUnit(2)]) && Canonical([LossyUnit(1), LossyUnit(2)])
    ensures Canonical([LossyUnit(0), LossyUnit(1), LossyUnit(2)])
  {
    var a, b, c := LossyUnit(0), LossyUnit(1), LossyUnit(2);
    assert NoCode(a.nal) && NoCode(b.nal) && NoCode(c.nal) && MayPrecede(a.nal, 3) && MayPrecede(b.nal, 3);
    hide NoCode, MayPrecede;
    assert [c][1..] == [] && [b, c][1..] == [c] && [a, b, c][1..] == [b, c];
  }

  lemma LossyJoinLast()
    ensures Join([LossyUnit(2)]) == [0, 0, 1, 9, 9, 5]
  {
    JoinOneMore(LossyUnit(2), [], []);
    hide Join;
    assert [LossyUnit(2)] + [] == [LossyUnit(2)];
  }

  lemma LossyJoinTwo()
    ensures Join([LossyUnit(1), LossyUnit(2)]) == [0, 0, 1, 8, 8, 8, 0, 0, 1, 9, 9, 5]
  {
    hide Join;
    LossyJoinLast();
    JoinOneMore(LossyUnit(1), [LossyUnit(2)], [0, 0, 1, 9, 9, 5]);
    assert [LossyUnit(1)] + [LossyUnit(2)] == [LossyUnit(1), LossyUnit(2)];
  }

  lemma LossyJoin()
    ensures Join([LossyUnit(0), LossyUnit(1), LossyUnit(2)]) == LossyFile()
  {
    hide Join;
    LossyJoinTwo();
    JoinOneMore(LossyUnit(0), [LossyUnit(1), LossyUnit(2)], [0, 0, 1, 8, 8, 8, 0, 0, 1, 9, 9, 5]);
    assert [LossyUnit(0)] + [LossyUnit(1), LossyUnit(2)] == [LossyUnit(0), LossyUnit(1), LossyUnit(2)];
  }

  lemma LossyUnits()
    ensures NalAt(Split(LossyFile(), 0), 1) == [8, 8, 8]
  {
    LossyCanonical();
    LossyJoin();
    hide Join, Split, Canonical, LossyFile;
    SplitInvertsJoin([LossyUnit(0), LossyUnit(1), LossyUnit(2)]);
  }

  /** So short units are no protection: the second one comes out with a byte of the next block. */
  lemma ShortUnitsAreLost()
    ensures !Exact(LossyFile(), 8) && Fetch(Open(LossyFile(), 8), 1) == Some([5, 8, 8])
  {
    LossyOpen();
    LossyFirst();
    LossySecond();
    LossyUnits();
    hide GetFrame, LossyReader, LossyFile, Open, Split, NalAt;
    assert Fetch(Open(LossyFile(), 8), 1) == GetFrame(GetFrame(Open(LossyFile(), 8)).0).1;
  }
}
