/**
 The double-buffered file reader: RingBuffer and RingBufferIterator.

 A file is shown to the reader through two arrays of `cap` bytes. An iterator is an offset
 and an array number; when it leaves an array it enters the other one, and that crossing
 loads the next block of the file into the array entered.

 `Ring` is the reader's state as a value, with one function per operation; the class
 `RingBufferClass.RingBuffer` does the same work in place and is proved to follow those
 functions.
 */
module Ring {
  import opened Bytes

  /** remain_size_ starts as (size_t)-1. */
  const SIZE_MAX := 0xFFFF_FFFF_FFFF_FFFF

  /** RingBufferIterator: offect_ and cur_arr_. */
  datatype Cursor = Cursor(offset: nat, arr: nat)

  /** file and pos are the FILE*: its bytes and the position fread has reached. */
  datatype Ring = Ring(
    file: seq<byte>, cap: nat, pos: nat,
    arr0: seq<byte>, arr1: seq<byte>,
    eof: bool, eofArr: int, remain: nat,
    offset: nat, cur: nat)
  {
    ghost predicate Valid() {
      && 1 <= cap
      && |arr0| == cap && |arr1| == cap
      && pos <= |file|
      && (eof ==> 0 <= eofArr <= 1 && remain < cap)
      && offset < cap && cur <= 1
    }

    function Array(a: nat): seq<byte> {
      if a == 0 then arr0 else arr1
    }

    ghost predicate OnBuffer(c: Cursor) {
      c.offset < cap && c.arr <= 1
    }

    /** What a load uses up: bytes not read yet, plus one for finding the end of the file. */
    ghost function Unread(): nat
      requires Valid()
    {
      if eof then 0 else |file| - pos + 1
    }
  }

  /** (cur_arr_ + 1) % 2, for an array number 0 or 1. */
  function Other(a: nat): nat {
    if a == 0 then 1 else 0
  }

  // ----- The operations -----

  /** ReadFile: fread the next block into array a; nothing at all once eof_ is set. */
  function Load(r: Ring, a: nat): (r': Ring)
    requires r.Valid() && a <= 1
    ensures r'.Valid()
    ensures r'.file == r.file && r'.cap == r.cap && r'.offset == r.offset && r'.cur == r.cur
    ensures if r.eof then r' == r else r'.Unread() < r.Unread()
  {
    if r.eof then r else
      var n := Min(r.cap, |r.file| - r.pos);
      var block := r.file[r.pos..r.pos + n];
      var filled := if a == 0 then r.(arr0 := block + r.arr0[n..]) else r.(arr1 := block + r.arr1[n..]);
      var advanced := filled.(pos := r.pos + n);
      if n < r.cap then advanced.(eof := true, eofArr := a, remain := n) else advanced
  }

  /** What a load of array a leaves, field by field. */
  lemma LoadedIsLoad(r: Ring, a: nat, r': Ring)
    requires r.Valid() && !r.eof && a <= 1
    requires var n := Min(r.cap, |r.file| - r.pos);
             && r'.file == r.file && r'.cap == r.cap && r'.pos == r.pos + n && r'.offset == r.offset && r'.cur == r.cur
             && r'.arr0 == (if a == 0 then r.file[r.pos..r.pos + n] + r.arr0[n..] else r.arr0)
             && r'.arr1 == (if a == 0 then r.arr1 else r.file[r.pos..r.pos + n] + r.arr1[n..])
             && if n < r.cap then r'.eof && r'.eofArr == a && r'.remain == n
                else !r'.eof && r'.eofArr == r.eofArr && r'.remain == r.remain
    ensures r' == Load(r, a)
  {
  }

  /** The constructor: two zero-filled arrays, then the first block into array 0. */
  function Open(file: seq<byte>, cap: nat): (r: Ring)
    requires 1 <= cap
    ensures r.Valid() && r.file == file && r.cap == cap && r.offset == 0 && r.cur == 0
  {
    Load(Ring(file, cap, 0, Zeros(cap), Zeros(cap), false, -1, SIZE_MAX, 0, 0), 0)
  }

  function Begin(r: Ring): Cursor {
    Cursor(r.offset, r.cur)
  }

  function End(r: Ring): Cursor {
    if r.eof then Cursor(r.remain, if r.eofArr == 0 then 0 else 1) else Cursor(r.cap + 1, r.cur)
  }

  function SetOffset(r: Ring, c: Cursor): Ring {
    r.(offset := c.offset, cur := c.arr)
  }

  predicate NotEqual(c: Cursor, d: Cursor) {
    c.offset != d.offset || c.arr != d.arr
  }

  /** operator== as written: it asks for equal offsets in DIFFERENT arrays. */
  predicate Equal(c: Cursor, d: Cursor) {
    c.offset == d.offset && c.arr != d.arr
  }

  /** operator* */
  function Peek(r: Ring, c: Cursor): byte
    requires r.Valid() && r.OnBuffer(c)
  {
    r.Array(c.arr)[c.offset]
  }

  /** operator++ */
  function Step(r: Ring, c: Cursor): (next: (Ring, Cursor))
    requires r.Valid() && r.OnBuffer(c)
    ensures next.0.Valid() && next.0.OnBuffer(next.1)
  {
    if c.offset == r.cap - 1 then
      (Load(r, Other(c.arr)), Cursor(0, Other(c.arr)))
    else
      (r, Cursor(c.offset + 1, c.arr))
  }

  /** operator+= and operator+: at most one crossing; a jump that is too long is ignored. */
  function Jump(r: Ring, c: Cursor, n: nat): (next: (Ring, Cursor))
    requires r.Valid() && r.OnBuffer(c)
    ensures next.0.Valid()
    ensures c.offset + n != 2 * r.cap ==> next.0.OnBuffer(next.1)
  {
    if c.offset + n < r.cap then
      (r, Cursor(c.offset + n, c.arr))
    else if n > 2 * r.cap - c.offset then
      (r, c)
    else
      (Load(r, Other(c.arr)), Cursor(c.offset + n - r.cap, Other(c.arr)))
  }

  /** GetSizeBetween, before its conversion to size_t. */
  function SizeBetween(r: Ring, c: Cursor, d: Cursor): int {
    if c.arr == d.arr then d.offset - c.offset else d.offset + r.cap - c.offset
  }

  /** GetDataBetween; None is the length_error thrown for a negative size. */
  function DataBetween(r: Ring, c: Cursor, d: Cursor): (data: Option<seq<byte>>)
    requires r.Valid() && r.OnBuffer(c) && r.OnBuffer(d)
  {
    if c.arr == d.arr then
      if d.offset < c.offset then None else Some(r.Array(c.arr)[c.offset..d.offset])
    else
      Some(r.Array(c.arr)[c.offset..] + r.Array(d.arr)[..d.offset])
  }

  // ----- What the arrays hold -----

  /** Array a holds the block of the file that starts at base. */
  ghost predicate Holds(r: Ring, a: nat, base: nat) {
    && base <= |r.file|
    && |r.Array(a)| == r.cap
    && forall j :: 0 <= j < r.cap && base + j < |r.file| ==> r.Array(a)[j] == r.file[base + j]
  }

  /** Array a holds the block at base, and it is the block that was read last. */
  ghost predicate Newest(r: Ring, a: nat, base: nat) {
    && Holds(r, a, base)
    && r.pos == Min(base + r.cap, |r.file|)
    && (r.eof <==> |r.file| < base + r.cap)
    && (r.eof ==> r.eofArr == a && r.remain == |r.file| - base)
  }

  lemma OpenIsNewest(file: seq<byte>, cap: nat)
    requires 1 <= cap
    ensures Newest(Open(file, cap), 0, 0)
  {
  }

  /** Loading the other array puts the following block there and leaves this one alone. */
  lemma LoadIsNewest(r: Ring, a: nat, base: nat)
    requires r.Valid() && a <= 1 && Newest(r, a, base) && !r.eof
    ensures Newest(Load(r, Other(a)), Other(a), base + r.cap)
    ensures Holds(Load(r, Other(a)), a, base)
  {
    hide Holds;
    assert r.pos == base + r.cap;
    LoadHolds(r, Other(a));
    LoadKeepsOther(r, Other(a), base);
  }

  lemma LoadHolds(r: Ring, a: nat)
    requires r.Valid() && a <= 1 && !r.eof
    ensures Holds(Load(r, a), a, r.pos)
  {
  }

  lemma LoadKeepsOther(r: Ring, a: nat, base: nat)
    requires r.Valid() && a <= 1 && Holds(r, Other(a), base)
    ensures Holds(Load(r, a), Other(a), base)
  {
    assert Load(r, a).Array(Other(a)) == r.Array(Other(a));
  }

  /** Loading the same array again overwrites its block with the following one. */
  lemma ReloadIsNewest(r: Ring, a: nat, base: nat)
    requires r.Valid() && a <= 1 && Newest(r, a, base) && !r.eof
    ensures Newest(Load(r, a), a, base + r.cap)
  {
    hide Holds;
    assert r.pos == base + r.cap;
    LoadHolds(r, a);
  }

  // ----- Traversal -----

  /** The iterator c stands at position p of the file, in the block that was read last. */
  ghost predicate StandsAt(r: Ring, c: Cursor, p: nat) {
    && r.Valid() && r.OnBuffer(c)
    && c.offset <= p <= |r.file|
    && Newest(r, c.arr, p - c.offset)
  }

  /** Away from the end an iterator reads the byte at its position, and one ++ takes it to the
      next position; it equals end() exactly at the end of the file. */
  lemma StepAdvances(r: Ring, c: Cursor, p: nat)
    requires StandsAt(r, c, p)
    ensures NotEqual(c, End(r)) <==> p < |r.file|
    ensures p < |r.file| ==> Peek(r, c) == r.file[p] && StandsAt(Step(r, c).0, Step(r, c).1, p + 1)
    ensures Step(r, c).0.file == r.file
  {
    if p < |r.file| {
      hide Load;
      if c.offset == r.cap - 1 {
        CrossingAdvances(r, c, p);
      }
    }
  }

  lemma CrossingAdvances(r: Ring, c: Cursor, p: nat)
    requires StandsAt(r, c, p) && p < |r.file| && c.offset == r.cap - 1
    ensures StandsAt(Load(r, Other(c.arr)), Cursor(0, Other(c.arr)), p + 1)
  {
    LoadIsNewest(r, c.arr, p - c.offset);
  }

  /** The reading loop has emitted out and its iterator stands at the next position. */
  ghost predicate Reading(r: Ring, c: Cursor, out: seq<byte>) {
    StandsAt(r, c, |out|) && out == r.file[..|out|]
  }

  lemma ReadingAdvances(r: Ring, c: Cursor, out: seq<byte>)
    requires Reading(r, c, out)
    ensures NotEqual(c, End(r)) <==> |out| < |r.file|
    ensures |out| < |r.file| ==> Reading(Step(r, c).0, Step(r, c).1, out + [Peek(r, c)])
  {
    StepAdvances(r, c, |out|);
    if |out| < |r.file| {
      PrefixGrows(r.file, |out|);
    }
  }

  /** What a loop emits that reads and advances its iterator until end(). */
  ghost function Emitted(r: Ring, c: Cursor, p: nat): (out: seq<byte>)
    requires StandsAt(r, c, p)
    ensures out == r.file[p..]
    decreases |r.file| - p
  {
    StepAdvances(r, c, p);
    assert p < |r.file| ==> [r.file[p]] + r.file[p + 1..] == r.file[p..];
    if NotEqual(c, End(r)) then
      var (r', c') := Step(r, c);
      [Peek(r, c)] + Emitted(r', c', p + 1)
    else []
  }

  // ----- Jump equals steps -----

  function Steps(r: Ring, c: Cursor, n: nat): (next: (Ring, Cursor))
    requires r.Valid() && r.OnBuffer(c)
    ensures next.0.Valid() && next.0.OnBuffer(next.1)
    ensures next.0.cap == r.cap
    decreases n
  {
    if n == 0 then (r, c) else
      var (r', c') := Step(r, c);
      Steps(r', c', n - 1)
  }

  /** Steps that stay inside one array only move the offset. */
  lemma {:induction false} StepsWithin(r: Ring, c: Cursor, n: nat)
    requires r.Valid() && r.OnBuffer(c) && c.offset + n < r.cap
    ensures Steps(r, c, n) == (r, Cursor(c.offset + n, c.arr))
    decreases n
  {
    if n > 0 {
      StepsWithin(r, Cursor(c.offset + 1, c.arr), n - 1);
    }
  }

  /** Any number of steps up to the boundary, then one crossing. */
  lemma {:induction false} StepsAcross(r: Ring, c: Cursor, n: nat)
    requires r.Valid() && r.OnBuffer(c) && r.cap <= c.offset + n
    ensures Steps(r, c, n)
         == Steps(Load(r, Other(c.arr)), Cursor(0, Other(c.arr)), c.offset + n - r.cap)
    decreases n
  {
    if c.offset < r.cap - 1 {
      StepsAcross(r, Cursor(c.offset + 1, c.arr), n - 1);
    }
  }

  lemma StepsAcrossOnce(r: Ring, c: Cursor, n: nat)
    requires r.Valid() && r.OnBuffer(c) && r.cap <= c.offset + n < 2 * r.cap
    ensures Steps(r, c, n) == (Load(r, Other(c.arr)), Cursor(c.offset + n - r.cap, Other(c.arr)))
  {
    StepsAcross(r, c, n);
    StepsWithin(Load(r, Other(c.arr)), Cursor(0, Other(c.arr)), c.offset + n - r.cap);
  }

  lemma StepsAcrossTwice(r: Ring, c: Cursor, n: nat)
    requires r.Valid() && r.OnBuffer(c) && 2 * r.cap <= c.offset + n < 3 * r.cap
    ensures Steps(r, c, n).1 == Cursor(c.offset + n - 2 * r.cap, c.arr)
  {
    StepsAcross(r, c, n);
    StepsAcrossOnce(Load(r, Other(c.arr)), Cursor(0, Other(c.arr)), c.offset + n - r.cap);
  }

  /** For jumps shorter than both arrays, += agrees with repeated ++ in every field exactly when
      it crosses at most one boundary. (At offset + n == 2 * cap it is accepted but leaves the
      iterator one past its array; beyond that it is ignored.) */
  lemma JumpEqualsSteps(r: Ring, c: Cursor, n: nat)
    requires r.Valid() && r.OnBuffer(c) && n < 2 * r.cap
    ensures Jump(r, c, n) == Steps(r, c, n) <==> c.offset + n < 2 * r.cap
  {
    if c.offset + n < r.cap {
      StepsWithin(r, c, n);
    } else if c.offset + n < 2 * r.cap {
      StepsAcrossOnce(r, c, n);
    } else {
      StepsAcrossTwice(r, c, n);
    }
  }

  /** A jump leaves iterator and reader as they are exactly when it is no jump or goes further than twice
      the capacity; exactly there it stops one past the other array. */
  lemma JumpStaysIff(r: Ring, c: Cursor, n: nat)
    requires r.Valid() && r.OnBuffer(c)
    ensures Jump(r, c, n) == (r, c) <==> n == 0 || 2 * r.cap < c.offset + n
    ensures c.offset + n == 2 * r.cap ==> Jump(r, c, n).1 == Cursor(r.cap, Other(c.arr))
  {
  }

  // ----- Slices -----

  /** Between two iterators in one resident block, or in two consecutive resident blocks,
      GetDataBetween is exactly the slice of the file between their positions. */
  lemma SliceIsFileSlice(r: Ring, c: Cursor, d: Cursor, base: nat)
    requires r.Valid() && r.OnBuffer(c) && r.OnBuffer(d)
    requires Holds(r, c.arr, base)
    requires if c.arr == d.arr then c.offset <= d.offset else Holds(r, d.arr, base + r.cap)
    requires base + (if c.arr == d.arr then 0 else r.cap) + d.offset <= |r.file|
    ensures var from := base + c.offset;
            var to := base + (if c.arr == d.arr then 0 else r.cap) + d.offset;
            && DataBetween(r, c, d) == Some(r.file[from..to])
            && SizeBetween(r, c, d) == to - from
  {
    var from := base + c.offset;
    var to := base + (if c.arr == d.arr then 0 else r.cap) + d.offset;
    assert DataBetween(r, c, d).value == r.file[from..to];
  }

  /** No slice is longer than what two arrays can hold. */
  lemma SliceIsBounded(r: Ring, c: Cursor, d: Cursor)
    requires r.Valid() && r.OnBuffer(c) && r.OnBuffer(d)
    ensures DataBetween(r, c, d).Some? ==> |DataBetween(r, c, d).value| < 2 * r.cap - c.offset
  {
  }

  // ----- Crossing the same boundary twice -----

  /** Loading an array again, when it was loaded just before: the following block if there is one,
      nothing new otherwise. */
  lemma LoadAgain(r: Ring, a: nat, base: nat)
    requires r.Valid() && a <= 1 && Newest(r, a, base)
    ensures Newest(Load(r, a), a, if r.eof then base else base + r.cap)
  {
    if !r.eof {
      ReloadIsNewest(r, a, base);
    }
  }

  /** A temporary iterator crosses from array c.arr and loads the following block. */
  lemma LookAheadCrosses(r: Ring, c: Cursor, base: nat, k: nat) returns (ahead: Ring)
    requires r.Valid() && r.OnBuffer(c) && Newest(r, c.arr, base) && !r.eof
    requires r.cap <= c.offset + k < 2 * r.cap
    ensures Jump(r, c, k) == (ahead, Cursor(c.offset + k - r.cap, Other(c.arr)))
    ensures ahead.Valid() && ahead.cap == r.cap && ahead.file == r.file
    ensures Newest(ahead, Other(c.arr), base + r.cap) && (ahead.eof <==> |r.file| < base + 2 * r.cap)
  {
    hide Load, Holds;
    ahead := Load(r, Other(c.arr));
    LoadIsNewest(r, c.arr, base);
  }

  /** A look-ahead `*(it + k)` over the boundary crosses with a temporary iterator, so the iterator
      itself crosses the same boundary again when its steps take it there, and each crossing reads.
      The iterator then stands on the block after the one it should see, unless end of file had
      been reached by then. */
  lemma SecondCrossingSkips(r: Ring, c: Cursor, base: nat, k: nat) returns (ahead: Ring, r': Ring)
    requires r.Valid() && r.OnBuffer(c) && Newest(r, c.arr, base) && !r.eof
    requires r.cap <= c.offset + k < 2 * r.cap
    ensures Jump(r, c, k) == (ahead, Cursor(c.offset + k - r.cap, Other(c.arr)))
    ensures ahead.Valid() && ahead.OnBuffer(c) && Newest(ahead, Other(c.arr), base + r.cap)
    ensures Steps(ahead, c, r.cap - c.offset) == (r', Cursor(0, Other(c.arr)))
    ensures Newest(r', Other(c.arr), if |r.file| < base + 2 * r.cap then base + r.cap else base + 2 * r.cap)
  {
    hide Jump, Load, Steps, Newest;
    ahead := LookAheadCrosses(r, c, base, k);
    r' := Load(ahead, Other(c.arr));
    StepsAcrossOnce(ahead, c, r.cap - c.offset);
    LoadAgain(ahead, Other(c.arr), base + r.cap);
  }
}
