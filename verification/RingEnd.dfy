/**
 What the reader sees around its place in the file, the bytes behind the end included.

 The last block seldom fills its array, and the bytes behind it are the ones the array held
 before: zeros at first, the block two before in a longer file.
 */
module RingEnd {
  import opened Bytes
  import opened Bits
  import opened Ring

  /** What an array shows behind the end of the file, at the place of position x. */
  function OldByte(file: seq<byte>, cap: nat, x: nat): byte {
    if 2 * cap <= x < |file| + 2 * cap then file[x - 2 * cap] else 0
  }

  /** What the reader sees at position x. */
  function Seen(file: seq<byte>, cap: nat, x: nat): byte {
    if x < |file| then file[x] else OldByte(file, cap, x)
  }

  /** The array a, as the place of the block at base, has not been written since the block two
      before it, from offset from on. */
  ghost predicate Old(r: Ring, a: nat, base: nat, from: nat) {
    |r.Array(a)| == r.cap && forall j :: from <= j < r.cap ==> r.Array(a)[j] == OldByte(r.file, r.cap, base + j)
  }

  /** The iterator c stands at position p, in the block that was read last. */
  ghost predicate Placed(r: Ring, c: Cursor, p: nat) {
    StandsAt(r, c, p) && c.offset == p % r.cap
  }

  /** And beside that block there are only old bytes. */
  ghost predicate Beside(r: Ring, c: Cursor, p: nat) {
    && Placed(r, c, p)
    && (r.eof ==> Old(r, c.arr, p - c.offset, r.remain))
    && Old(r, Other(c.arr), p - c.offset + r.cap, 0)
  }

  lemma OpenBeside(file: seq<byte>, cap: nat)
    requires 1 <= cap
    ensures Beside(Open(file, cap), Begin(Open(file, cap)), 0)
  {
    OpenIsNewest(file, cap);
    assert 0 % cap == 0;
  }

  lemma SetOffsetKeeps(r: Ring, c: Cursor, p: nat)
    requires Beside(r, c, p)
    ensures Beside(SetOffset(r, c), c, p) && Begin(SetOffset(r, c)) == c
  {
    hide Old, Holds;
    var r' := SetOffset(r, c);
    PlacedBySetOffset(r, c, p);
    SameArrays(r, r', c.arr, p - c.offset, r.remain);
    SameArrays(r, r', Other(c.arr), p - c.offset + r.cap, 0);
  }

  lemma SameHolds(r: Ring, r': Ring, a: nat, base: nat)
    requires r'.Array(a) == r.Array(a) && r'.cap == r.cap && r'.file == r.file
    ensures Holds(r', a, base) == Holds(r, a, base)
  {
  }

  lemma SameArrays(r: Ring, r': Ring, a: nat, base: nat, from: nat)
    requires r'.Array(a) == r.Array(a) && r'.cap == r.cap && r'.file == r.file
    ensures Old(r', a, base, from) == Old(r, a, base, from)
  {
  }

  lemma PlacedBySetOffset(r: Ring, c: Cursor, p: nat)
    requires Placed(r, c, p)
    ensures Placed(SetOffset(r, c), c, p) && Begin(SetOffset(r, c)) == c
  {
    hide Holds;
    SameHolds(r, SetOffset(r, c), c.arr, p - c.offset);
  }

  // ----- Moving on -----

  lemma PlacedWithin(r: Ring, c: Cursor, p: nat, n: nat)
    requires Placed(r, c, p) && c.offset + n < r.cap && p + n <= |r.file|
    ensures Placed(r, Cursor(c.offset + n, c.arr), p + n)
  {
    hide Holds;
    NextOffset(p, n, r.cap);
    assert p + n - (c.offset + n) == p - c.offset;
  }

  lemma MoveWithin(r: Ring, c: Cursor, p: nat, n: nat)
    requires Beside(r, c, p) && c.offset + n < r.cap && p + n <= |r.file|
    ensures Beside(r, Cursor(c.offset + n, c.arr), p + n)
  {
    hide Old, Holds, StandsAt;
    PlacedWithin(r, c, p, n);
    assert p + n - (c.offset + n) == p - c.offset;
  }

  /** The array that is left holds a full block, which is old when the next load comes round. */
  lemma LeftBehind(r: Ring, c: Cursor, p: nat)
    requires StandsAt(r, c, p) && !r.eof
    ensures Old(r, c.arr, p - c.offset + 2 * r.cap, 0)
  {
    var base := p - c.offset;
    forall j | 0 <= j < r.cap ensures r.Array(c.arr)[j] == OldByte(r.file, r.cap, base + 2 * r.cap + j) {
      assert r.Array(c.arr)[j] == r.file[base + j];
    }
  }

  /** Loading changes one array only, and that one only as far as there is file. */
  lemma LoadIsOld(r: Ring, a: nat, base: nat)
    requires r.Valid() && !r.eof && a <= 1 && Old(r, a, base, 0)
    ensures var r' := Load(r, a); r'.Array(Other(a)) == r.Array(Other(a)) && (r'.eof ==> Old(r', a, base, r'.remain))
  {
    var r' := Load(r, a);
    assert r'.eof ==> r'.Array(a)[r'.remain..] == r.Array(a)[r'.remain..];
    assert r'.eof ==> forall j :: r'.remain <= j < r.cap ==> r'.Array(a)[j] == r'.Array(a)[r'.remain..][j - r'.remain];
  }

  lemma CrossPlaced(r: Ring, c: Cursor, p: nat, n: nat)
    requires Placed(r, c, p) && r.cap <= c.offset + n < 2 * r.cap && p + n <= |r.file|
    ensures !r.eof && Placed(Load(r, Other(c.arr)), Cursor(c.offset + n - r.cap, Other(c.arr)), p + n)
  {
    hide Load, Holds;
    NextOffset(p, n, r.cap);
    LoadIsNewest(r, c.arr, p - c.offset);
  }

  lemma CrossBeside(r: Ring, c: Cursor, p: nat, n: nat)
    requires Beside(r, c, p) && r.cap <= c.offset + n < 2 * r.cap && p + n <= |r.file|
    ensures !r.eof && Beside(Load(r, Other(c.arr)), Cursor(c.offset + n - r.cap, Other(c.arr)), p + n)
  {
    hide Old, Load, Newest, Holds;
    var loaded, base := Load(r, Other(c.arr)), p - c.offset + r.cap;
    CrossPlaced(r, c, p, n);
    LeftBehind(r, c, p);
    LoadIsOld(r, Other(c.arr), base);
    SameArrays(r, loaded, c.arr, base + r.cap, 0);
  }

  /** Moving on by n bytes, across one boundary at most. */
  lemma JumpBeside(r: Ring, c: Cursor, p: nat, n: nat)
    requires Beside(r, c, p) && c.offset + n < 2 * r.cap && p + n <= |r.file|
    ensures Beside(Jump(r, c, n).0, Jump(r, c, n).1, p + n)
    ensures Jump(r, c, n).0.OnBuffer(Jump(r, c, n).1)
  {
    assert r.Valid() && r.OnBuffer(c);
    hide Placed, Load, Old;
    if r.cap <= c.offset + n {
      CrossBeside(r, c, p, n);
    } else {
      MoveWithin(r, c, p, n);
    }
  }

  lemma StepBeside(r: Ring, c: Cursor, p: nat)
    requires Beside(r, c, p) && p < |r.file|
    ensures Beside(Step(r, c).0, Step(r, c).1, p + 1)
  {
    assert r.Valid() && r.OnBuffer(c);
    JumpBeside(r, c, p, 1);
    hide Beside, Load;
    assert Step(r, c) == Jump(r, c, 1);
  }

  // ----- Looking ahead -----

  /** Looking k bytes ahead changes nothing and shows what is seen there, as long as it stays in the
      array or the end of the file is known. */
  lemma LookAheadShows(r: Ring, c: Cursor, p: nat, k: nat)
    requires Beside(r, c, p) && c.offset + k < 2 * r.cap && (c.offset + k < r.cap || r.eof)
    ensures Jump(r, c, k).0 == r && r.OnBuffer(Jump(r, c, k).1)
    ensures Peek(r, Jump(r, c, k).1) == Seen(r.file, r.cap, p + k)
  {
    var base := p - c.offset;
    if r.cap <= c.offset + k {
      assert r.Array(Other(c.arr))[c.offset + k - r.cap] == OldByte(r.file, r.cap, base + r.cap + (c.offset + k - r.cap));
    } else if |r.file| <= p + k {
      assert r.Array(c.arr)[c.offset + k] == OldByte(r.file, r.cap, base + (c.offset + k));
    }
  }
}
