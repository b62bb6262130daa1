/**
 H264MediaSource::GetFrameFromFile: cutting NAL units out of a file through the double buffer.

 Reading ahead is not free here: every `*(it + k)` moves a temporary iterator, and a temporary
 that crosses into the other array loads the next block. The functions below therefore return
 the reader's state along with what they read.
 */
module H264Splitter {
  import opened Bytes
  import opened Ring
  import opened AnnexB

  /** Reading may load blocks; it changes neither the file nor the place where begin() stands. */
  ghost predicate Continues(r: Ring, r': Ring)
    requires r.Valid()
  {
    && r'.Valid()
    && r'.file == r.file && r'.cap == r.cap && Begin(r') == Begin(r)
    && (r' == r || r'.Unread() < r.Unread())
  }

  // ----- The code as written -----

  /** `*(it + k)`, for the look-ahead of at most three bytes. */
  function PeekAt(r: Ring, c: Cursor, k: nat): (res: (Ring, byte))
    requires r.Valid() && 4 <= r.cap && r.OnBuffer(c) && k <= 3
    ensures Continues(r, res.0)
  {
    var (r', ahead) := Jump(r, c, k);
    (r', Peek(r', ahead))
  }

  function StartCode3(r: Ring, c: Cursor): (res: (Ring, bool))
    requires r.Valid() && 4 <= r.cap && r.OnBuffer(c)
    ensures Continues(r, res.0)
  {
    if Peek(r, c) != 0 then (r, false) else
      var (r1, b1) := PeekAt(r, c, 1);
      if b1 != 0 then (r1, false) else
        var (r2, b2) := PeekAt(r1, c, 2);
        (r2, b2 == 1)
  }

  function StartCode4(r: Ring, c: Cursor): (res: (Ring, bool))
    requires r.Valid() && 4 <= r.cap && r.OnBuffer(c)
    ensures Continues(r, res.0)
  {
    if Peek(r, c) != 0 then (r, false) else
      var (r1, b1) := PeekAt(r, c, 1);
      if b1 != 0 then (r1, false) else
        var (r2, b2) := PeekAt(r1, c, 2);
        if b2 != 0 then (r2, false) else
          var (r3, b3) := PeekAt(r2, c, 3);
          (r3, b3 == 1)
  }

  /** The length of the start code found at c: 3 is asked first, then 4; 0 for none. */
  function FindCode(r: Ring, c: Cursor): (res: (Ring, nat))
    requires r.Valid() && 4 <= r.cap && r.OnBuffer(c)
    ensures Continues(r, res.0)
    ensures res.1 == 0 || res.1 == 3 || res.1 == 4
  {
    var (r3, is3) := StartCode3(r, c);
    if is3 then (r3, 3) else
      var (r4, is4) := StartCode4(r3, c);
      (r4, if is4 then 4 else 0)
  }

  /** How far the iterator is from its next load or, once end of file is known, from end(),
      going round both arrays. */
  ghost function ToGo(r: Ring, c: Cursor): nat
    requires r.Valid() && r.OnBuffer(c)
  {
    if !r.eof then r.cap - c.offset else
      var here := if c.arr == 0 then c.offset else r.cap + c.offset;
      var there := if r.eofArr == 0 then r.remain else r.cap + r.remain;
      if here <= there then there - here else 2 * r.cap - here + there
  }

  lemma StepProgresses(r: Ring, c: Cursor, ahead: Ring)
    requires r.Valid() && r.OnBuffer(c) && Continues(r, ahead) && NotEqual(c, End(r))
    ensures var (r', next) := Step(ahead, c);
            && Continues(r, r')
            && (r'.Unread() < r.Unread() || (r'.Unread() == r.Unread() && ToGo(r', next) < ToGo(r, c)))
  {
  }

  /** The loop that looks for the next start code: forward until a code is found or the end is met. */
  function Scan(r: Ring, c: Cursor): (res: (Ring, Cursor))
    requires r.Valid() && 4 <= r.cap && r.OnBuffer(c)
    ensures Continues(r, res.0) && res.0.OnBuffer(res.1)
    decreases r.Unread(), ToGo(r, c)
  {
    if !NotEqual(c, End(r)) then (r, c) else
      var (r1, k) := FindCode(r, c);
      if k != 0 then (r1, c) else
        StepProgresses(r, c, r1);
        var (r2, next) := Step(r1, c);
        Scan(r2, next)
  }

  function GetFrame(r: Ring): (res: (Ring, Option<seq<byte>>))
    requires r.Valid() && 4 <= r.cap
    ensures res.0.Valid() && res.0.cap == r.cap
  {
    var begin := Begin(r);
    if Equal(begin, End(r)) then (r, Some([])) else
      var (r1, k) := FindCode(r, begin);
      if k == 0 then (r1, Some([])) else
        var (r2, start) := Jump(r1, begin, k);
        var (r3, it) := Scan(r2, start);
        if Equal(it, End(r3)) then (r3, Some([])) else
          var (r4, from) := Jump(r3, Begin(r3), k);
          match DataBetween(r4, from, it)
          case None => (r4, None)
          case Some(frame) => (SetOffset(r4, it), Some(frame))
  }

  /** When a call throws: the next start code lies in the array in which the unit begins, in front of
      the place where it begins, so that the size comes out negative. It has moved nothing then. */
  lemma ThrowsIff(r: Ring, r1: Ring, k: nat, r2: Ring, start: Cursor, r3: Ring, it: Cursor, r4: Ring, from: Cursor)
    requires r.Valid() && 4 <= r.cap && 0 < k && !Equal(Begin(r), End(r)) && FindCode(r, Begin(r)) == (r1, k)
    requires r1.OnBuffer(Begin(r)) && Jump(r1, Begin(r), k) == (r2, start) && r2.cap == r.cap && r2.OnBuffer(start)
    requires Scan(r2, start) == (r3, it) && !Equal(it, End(r3)) && r3.OnBuffer(Begin(r3))
    requires Jump(r3, Begin(r3), k) == (r4, from) && r4.OnBuffer(from) && r4.OnBuffer(it)
    ensures GetFrame(r).1 == None <==> from.arr == it.arr && it.offset < from.offset
    ensures GetFrame(r).1 == None <==> SizeBetween(r4, from, it) < 0
    ensures Begin(GetFrame(r).0) == if GetFrame(r).1 == None then Begin(r4) else it
  {
    hide FindCode, Jump, Scan, Equal, End;
  }

  /** What a call does, step by step. */
  lemma CallGoes(r: Ring, r1: Ring, k: nat, r2: Ring, start: Cursor, r3: Ring, it: Cursor, r4: Ring, from: Cursor, data: seq<byte>)
    requires r.Valid() && 4 <= r.cap && 0 < k && !Equal(Begin(r), End(r)) && FindCode(r, Begin(r)) == (r1, k)
    requires r1.OnBuffer(Begin(r)) && Jump(r1, Begin(r), k) == (r2, start) && r2.cap == r.cap && r2.OnBuffer(start)
    requires Scan(r2, start) == (r3, it) && !Equal(it, End(r3)) && r3.OnBuffer(Begin(r3))
    requires Jump(r3, Begin(r3), k) == (r4, from) && r4.OnBuffer(from) && r4.OnBuffer(it)
    requires DataBetween(r4, from, it) == Some(data)
    ensures GetFrame(r) == (SetOffset(r4, it), Some(data))
  {
    hide FindCode, Jump, Scan, DataBetween, Equal, End;
  }
}
