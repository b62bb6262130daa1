/**
 When the splitter is exact.

 In files shorter than the two arrays together the reader is in one of two states: the second
 block has been loaded or it has not. The proofs follow the code through these two states and
 end in `ExactIffItFits`: the splitter returns the NAL units of every file of a given length
 exactly when the length leaves four bytes of the two arrays free.
 */
module H264Exact {
  import opened Bytes
  import opened Ring
  import opened AnnexB
  import opened H264Splitter

  // ----- The reader on a file that fits -----

  /** The iterator at position p of the file. */
  function At(cap: nat, p: nat): Cursor {
    if p < cap then Cursor(p, 0) else Cursor(p - cap, 1)
  }

  /** The reader standing at position p, before or after its second load. */
  function State(file: seq<byte>, cap: nat, loaded: bool, p: nat): (r: Ring)
    requires 1 <= cap && p < 2 * cap
    ensures r.Valid() && r.file == file && r.cap == cap && Begin(r) == At(cap, p)
  {
    SetOffset(if loaded then Load(Open(file, cap), 1) else Open(file, cap), At(cap, p))
  }

  lemma OpenState(file: seq<byte>, cap: nat, loaded: bool, p: nat)
    requires 1 <= cap && |file| < 2 * cap && p < 2 * cap
    ensures var r := State(file, cap, loaded, p);
            && r.eof == (loaded || |file| < cap)
            && (r.eof ==> End(r) == At(cap, |file|))
            && (!r.eof ==> End(r).offset == cap + 1)
  {
  }

  /** Both arrays read as the file, with zeros behind its end. */
  lemma PeekState(file: seq<byte>, cap: nat, loaded: bool, p: nat, o: nat)
    requires 1 <= cap && |file| < 2 * cap && p < 2 * cap && o < 2 * cap
    requires p < cap || loaded
    ensures Peek(State(file, cap, loaded, o), At(cap, p)) == ByteAt(file, p)
  {
  }

  lemma LoadState(file: seq<byte>, cap: nat, loaded: bool, o: nat)
    requires 1 <= cap && |file| < 2 * cap && o < 2 * cap
    ensures Load(State(file, cap, loaded, o), 1) == State(file, cap, true, o)
  {
  }

  lemma JumpState(file: seq<byte>, cap: nat, loaded: bool, p: nat, o: nat, k: nat)
    requires 1 <= cap && |file| < 2 * cap && p + k < 2 * cap && o < 2 * cap
    requires p < cap || loaded
    ensures Jump(State(file, cap, loaded, o), At(cap, p), k)
         == (State(file, cap, loaded || cap <= p + k, o), At(cap, p + k))
  {
    if p < cap <= p + k {
      LoadState(file, cap, loaded, o);
    }
  }

  lemma PeekAtState(file: seq<byte>, cap: nat, loaded: bool, p: nat, o: nat, k: nat)
    requires 4 <= cap && |file| < 2 * cap && p + k < 2 * cap && o < 2 * cap && k <= 3
    requires p < cap || loaded
    ensures PeekAt(State(file, cap, loaded, o), At(cap, p), k)
         == (State(file, cap, loaded || cap <= p + k, o), ByteAt(file, p + k))
  {
    hide State, Jump, Peek;
    JumpState(file, cap, loaded, p, o, k);
    PeekState(file, cap, loaded || cap <= p + k, p + k, o);
  }

  /** The last byte that the two tests for a start code look at. */
  function LookAhead(file: seq<byte>, p: nat): (k: nat)
    ensures k <= 3
    ensures CodeAt(file, p) != 0 ==> k == CodeAt(file, p) - 1
  {
    if ByteAt(file, p) != 0 then 0
    else if ByteAt(file, p + 1) != 0 then 1
    else if ByteAt(file, p + 2) != 0 then 2
    else 3
  }

  lemma StartCode3State(file: seq<byte>, cap: nat, loaded: bool, p: nat, o: nat)
    requires 4 <= cap && |file| < 2 * cap && p + 3 < 2 * cap && o < 2 * cap
    requires p < cap || loaded
    ensures StartCode3(State(file, cap, loaded, o), At(cap, p))
         == (State(file, cap, loaded || cap <= p + Min(LookAhead(file, p), 2), o), CodeAt(file, p) == 3)
  {
    hide State, PeekAt;
    PeekState(file, cap, loaded, p, o);
    PeekAtState(file, cap, loaded, p, o, 1);
    PeekAtState(file, cap, loaded || cap <= p + 1, p, o, 2);
  }

  lemma StartCode4State(file: seq<byte>, cap: nat, loaded: bool, p: nat, o: nat)
    requires 4 <= cap && |file| < 2 * cap && p + 3 < 2 * cap && o < 2 * cap
    requires p < cap || loaded
    requires CodeAt(file, p) != 3
    ensures StartCode4(State(file, cap, loaded, o), At(cap, p))
         == (State(file, cap, loaded || cap <= p + LookAhead(file, p), o), CodeAt(file, p) == 4)
  {
    hide State, PeekAt;
    PeekState(file, cap, loaded, p, o);
    PeekAtState(file, cap, loaded, p, o, 1);
    PeekAtState(file, cap, loaded || cap <= p + 1, p, o, 2);
    PeekAtState(file, cap, loaded || cap <= p + 2, p, o, 3);
  }

  lemma FindCodeState(file: seq<byte>, cap: nat, loaded: bool, p: nat, o: nat)
    requires 4 <= cap && |file| < 2 * cap && p + 3 < 2 * cap && o < 2 * cap
    requires p < cap || loaded
    ensures FindCode(State(file, cap, loaded, o), At(cap, p))
         == (State(file, cap, loaded || cap <= p + LookAhead(file, p), o), CodeAt(file, p))
  {
    hide State, StartCode3, StartCode4;
    StartCode3State(file, cap, loaded, p, o);
    if CodeAt(file, p) != 3 {
      StartCode4State(file, cap, loaded || cap <= p + Min(LookAhead(file, p), 2), p, o);
    }
  }

  lemma StepState(file: seq<byte>, cap: nat, loaded: bool, p: nat, o: nat)
    requires 1 <= cap && |file| < 2 * cap && p + 1 < 2 * cap && o < 2 * cap
    requires p < cap || loaded
    ensures Step(State(file, cap, loaded, o), At(cap, p))
         == (State(file, cap, loaded || cap <= p + 1, o), At(cap, p + 1))
  {
    if p + 1 == cap {
      LoadState(file, cap, loaded, o);
    }
  }

  /** The scan stops at the next start code or at the end of the file. The second block is loaded
      afterwards only if a look-ahead from the stopping point could reach it, and certainly if
      the start code found there does reach it. */
  lemma {:induction false} ScanState(file: seq<byte>, cap: nat, loaded: bool, p: nat, o: nat) returns (loaded': bool)
    requires 4 <= cap && |file| < 2 * cap && p <= |file| && o < 2 * cap
    requires p < cap || loaded
    requires Min(NextCode(file, p) + 1, |file|) + 2 < 2 * cap
    ensures var q := NextCode(file, p);
            && Scan(State(file, cap, loaded, o), At(cap, p)) == (State(file, cap, loaded', o), At(cap, q))
            && (loaded ==> loaded')
            && (loaded' ==> loaded || cap <= q + 3)
            && (q < cap || loaded')
            && (cap < q + CodeAt(file, q) ==> loaded')
    decreases |file| - p
  {
    hide State, FindCode, Step;
    OpenState(file, cap, loaded, o);
    loaded' := loaded;
    if p < |file| {
      FindCodeState(file, cap, loaded, p, o);
      loaded' := loaded || cap <= p + LookAhead(file, p);
      if CodeAt(file, p) == 0 {
        StepState(file, cap, loaded', p, o);
        loaded' := ScanState(file, cap, loaded' || cap <= p + 1, p + 1, o);
      }
    }
  }

  lemma SliceState(file: seq<byte>, cap: nat, loaded: bool, from: nat, to: nat, o: nat)
    requires 1 <= cap && |file| < 2 * cap && from <= to <= |file| && o < 2 * cap
    requires to < cap || loaded
    ensures DataBetween(State(file, cap, loaded, o), At(cap, from), At(cap, to)) == Some(file[from..to])
  {
    var r := State(file, cap, loaded, o);
    OpenIsNewest(file, cap);
    if loaded && !Open(file, cap).eof {
      LoadIsNewest(Open(file, cap), 0, 0);
    }
    assert Holds(r, 0, 0);
    assert cap <= to ==> Holds(r, 1, cap);
    SliceIsFileSlice(r, At(cap, from), At(cap, to), if from < cap then 0 else cap);
  }

  // ----- One call -----

  /** The reader between two calls, for a file that leaves four bytes free: it stands at p, and
      the second block has been loaded only if a look-ahead from p can reach it. */
  ghost predicate Between(file: seq<byte>, cap: nat, loaded: bool, p: nat) {
    && 4 <= cap && |file| + 4 <= 2 * cap
    && p <= |file|
    && (p < cap || loaded)
    && (loaded && cap <= |file| ==> cap <= p + 3)
  }

  /** The inverted operator== never fires by accident: the iterator it would confuse with end()
      stands at |file| - cap in the first array, too early for the second block to be there. */
  lemma NotTakenForEnd(file: seq<byte>, cap: nat, loaded: bool, p: nat, o: nat)
    requires Between(file, cap, loaded, p) && o < 2 * cap
    ensures !Equal(At(cap, p), End(State(file, cap, loaded, o)))
  {
    OpenState(file, cap, loaded, o);
  }

  lemma GetFrameState(file: seq<byte>, cap: nat, loaded: bool, p: nat) returns (loaded': bool)
    requires Between(file, cap, loaded, p)
    ensures var k := CodeAt(file, p);
            var q := if k == 0 then p else NextCode(file, p + k);
            && Between(file, cap, loaded', q)
            && GetFrame(State(file, cap, loaded, p))
            == (State(file, cap, loaded', q), Some(if k == 0 then [] else file[p + k..q]))
  {
    hide State, FindCode, Scan, Jump, DataBetween, End, NextCode;
    NotTakenForEnd(file, cap, loaded, p, p);
    FindCodeState(file, cap, loaded, p, p);
    loaded' := loaded || cap <= p + LookAhead(file, p);
    var k := CodeAt(file, p);
    if k != 0 {
      loaded' := GetUnitState(file, cap, loaded, p);
      hide GetFrame;
    }
  }

  lemma GetUnitState(file: seq<byte>, cap: nat, loaded: bool, p: nat) returns (loaded': bool)
    requires Between(file, cap, loaded, p) && CodeAt(file, p) != 0
    ensures var k := CodeAt(file, p);
            var q := NextCode(file, p + k);
            && Between(file, cap, loaded', q)
            && GetFrame(State(file, cap, loaded, p)) == (State(file, cap, loaded', q), Some(file[p + k..q]))
  {
    hide State, FindCode, Scan, Jump, DataBetween, End, NextCode, GetFrame, Equal;
    var k := CodeAt(file, p);
    var q := NextCode(file, p + k);
    NotTakenForEnd(file, cap, loaded, p, p);
    FindCodeState(file, cap, loaded, p, p);
    var loaded1 := loaded || cap <= p + LookAhead(file, p);
    var loaded2 := loaded1 || cap <= p + k;
    assert loaded2 == loaded1 || cap == p + k;
    StartState(file, cap, loaded, p);
    loaded' := ScanState(file, cap, loaded2, p + k, p);
    NotTakenForEnd(file, cap, loaded', q, p);
    hide CodeAt, LookAhead, Between;
    UnitState(file, cap, loaded, loaded1, loaded2, loaded', p, k, q);
  }

  /** Looking at the start code and stepping over it. */
  lemma StartState(file: seq<byte>, cap: nat, loaded: bool, p: nat)
    requires Between(file, cap, loaded, p) && CodeAt(file, p) != 0
    ensures var k := CodeAt(file, p);
            p + k <= |file| && Min(NextCode(file, p + k) + 1, |file|) + 2 < 2 * cap
  {
    hide NextCode;
  }

  lemma UnitState(file: seq<byte>, cap: nat, loaded: bool, loaded1: bool, loaded2: bool, loaded3: bool, p: nat, k: nat, q: nat)
    requires 4 <= cap && |file| + 4 <= 2 * cap && p < p + k <= q <= |file|
    requires (p < cap || loaded) && (loaded ==> loaded1) && loaded2 == (loaded1 || cap <= p + k) && (loaded2 ==> loaded3)
    requires q < cap || loaded3
    requires FindCode(State(file, cap, loaded, p), At(cap, p)) == (State(file, cap, loaded1, p), k)
    requires Scan(State(file, cap, loaded2, p), At(cap, p + k)) == (State(file, cap, loaded3, p), At(cap, q))
    requires !Equal(At(cap, p), End(State(file, cap, loaded, p))) && !Equal(At(cap, q), End(State(file, cap, loaded3, p)))
    ensures GetFrame(State(file, cap, loaded, p)) == (State(file, cap, loaded3, q), Some(file[p + k..q]))
  {
    hide State, FindCode, Scan, Jump, DataBetween, End, GetFrame, Equal;
    JumpState(file, cap, loaded1, p, p, k);
    JumpState(file, cap, loaded3, p, p, k);
    SliceState(file, cap, loaded3, p + k, q, p);
    MoveState(file, cap, loaded3, p, q);
    CallGoes(State(file, cap, loaded, p), State(file, cap, loaded1, p), k, State(file, cap, loaded2, p), At(cap, p + k),
             State(file, cap, loaded3, p), At(cap, q), State(file, cap, loaded3, p), At(cap, p + k), file[p + k..q]);
  }

  lemma MoveState(file: seq<byte>, cap: nat, loaded: bool, p: nat, q: nat)
    requires 1 <= cap && p < 2 * cap && q < 2 * cap
    ensures SetOffset(State(file, cap, loaded, p), At(cap, q)) == State(file, cap, loaded, q)
  {
  }

  // ----- Whole runs -----

  /** What call number i of GetFrameFromFile returns. */
  function Fetch(r: Ring, i: nat): Option<seq<byte>>
    requires r.Valid() && 4 <= r.cap
    decreases i
  {
    var (r', frame) := GetFrame(r);
    if i == 0 then frame else Fetch(r', i - 1)
  }

  function NalAt(us: seq<Unit>, i: nat): seq<byte> {
    if i < |us| then us[i].nal else []
  }

  /** Calling again and again gives the NAL units in order and then empty results for ever. */
  ghost predicate Exact(file: seq<byte>, cap: nat)
    requires 4 <= cap
  {
    forall i: nat :: Fetch(Open(file, cap), i) == Some(NalAt(Split(file, 0), i))
  }

  lemma {:induction false} FetchState(file: seq<byte>, cap: nat, loaded: bool, p: nat, i: nat)
    requires Between(file, cap, loaded, p)
    ensures Fetch(State(file, cap, loaded, p), i) == Some(NalAt(Split(file, p), i))
    decreases i
  {
    hide State, GetFrame, NextCode, CodeAt, NalAt, Split;
    var loaded' := GetFrameState(file, cap, loaded, p);
    var k := CodeAt(file, p);
    assert p <= |file|;
    NalAtSplit(file, p, i);
    if i > 0 {
      FetchState(file, cap, loaded', if k == 0 then p else NextCode(file, p + k), i - 1);
    }
  }

  lemma NalAtSplit(s: seq<byte>, p: nat, i: nat)
    requires p <= |s|
    ensures CodeAt(s, p) == 0 ==> forall j: nat :: NalAt(Split(s, p), j) == []
    ensures CodeAt(s, p) != 0 ==>
              var k := CodeAt(s, p); var q := NextCode(s, p + k);
              NalAt(Split(s, p), i) == if i == 0 then s[p + k..q] else NalAt(Split(s, q), i - 1)
  {
    hide CodeAt, NextCode;
  }

  lemma FitsIsExact(file: seq<byte>, cap: nat)
    requires 4 <= cap && |file| + 4 <= 2 * cap
    ensures Exact(file, cap)
  {
    assert Open(file, cap) == State(file, cap, false, 0);
    forall i: nat ensures Fetch(Open(file, cap), i) == Some(NalAt(Split(file, 0), i)) {
      FetchState(file, cap, false, 0, i);
    }
  }

  /** Units written to a file that fits come back as they were, whichever start codes they have
      and wherever the boundary between the arrays falls. */
  lemma JoinedUnitsComeBack(us: seq<Unit>, cap: nat, i: nat)
    requires 4 <= cap && |Join(us)| + 4 <= 2 * cap && Canonical(us)
    ensures Fetch(Open(Join(us), cap), i) == Some(NalAt(us, i))
  {
    SplitInvertsJoin(us);
    FitsIsExact(Join(us), cap);
  }

  // ----- Files that do not fit -----

  /** A NAL unit as long as both arrays together never comes out whole. */
  lemma LongNalIsCut(file: seq<byte>, cap: nat)
    requires 4 <= cap && CodeAt(file, 0) == 3 && 2 * cap <= |file|
    ensures Fetch(Open(file, cap), 0) != Some(file[3..])
  {
    var r := Open(file, cap);
    var (r1, k) := FindCode(r, Begin(r));
    assert k == 3;
    hide FindCode, Scan, DataBetween, CodeAt, End, Load;
    if !Equal(Begin(r), End(r)) && k != 0 {
      var (r2, start) := Jump(r1, Begin(r), k);
      var (r3, it) := Scan(r2, start);
      var (r4, from) := Jump(r3, Begin(r3), k);
      SliceIsBounded(r4, from, it);
    }
  }

  /** When the second start code of a file stands at |file| - cap and reaches into the second
      array, finding it also finds the end of the file, and the iterator on it, being at the
      offset of end() in the other array, compares equal to end(). Every call then returns the
      empty frame and never moves on. */
  lemma TakenForEnd(file: seq<byte>, cap: nat, loaded: bool)
    requires 4 <= cap < |file| < 2 * cap && CodeAt(file, 0) != 0
    requires NextCode(file, CodeAt(file, 0)) == |file| - cap
    requires cap < |file| - cap + CodeAt(file, |file| - cap)
    ensures GetFrame(State(file, cap, loaded, 0)) == (State(file, cap, true, 0), Some([]))
  {
    hide State, FindCode, Scan, NextCode, Jump;
    var k := CodeAt(file, 0);
    OpenState(file, cap, loaded, 0);
    FindCodeState(file, cap, loaded, 0, 0);
    JumpState(file, cap, loaded, 0, 0, k);
    var loaded' := ScanState(file, cap, loaded, k, 0);
    OpenState(file, cap, loaded', 0);
  }

  /** A unit of 01 bytes. */
  function Ones(n: nat): (nal: seq<byte>)
    ensures |nal| == n && NoCode(nal) && (n > 0 ==> nal[n - 1] != 0)
  {
    seq(n, _ => 1)
  }

  lemma SomeLongFile(cap: nat, size: nat) returns (file: seq<byte>)
    requires 4 <= cap && 2 * cap <= size
    ensures |file| == size && !Exact(file, cap)
  {
    var us := [Unit(3, Ones(size - 3))];
    file := Join(us);
    SplitInvertsJoin(us);
    LongNalIsCut(file, cap);
    assert NalAt(us, 0) == file[3..];
    assert Fetch(Open(file, cap), 0) != Some(NalAt(Split(file, 0), 0));
  }

  lemma TwoUnitFile(first: nat, k: nat, second: nat) returns (file: seq<byte>)
    requires k == 3 || k == 4
    ensures |file| == 3 + first + k + second
    ensures CodeAt(file, 0) == 3 && NextCode(file, 3) == 3 + first && CodeAt(file, 3 + first) == k
    ensures NalAt(Split(file, 0), 1) == Ones(second)
  {
    var us := [Unit(3, Ones(first)), Unit(k, Ones(second))];
    assert us[1..] == [us[1]] && Canonical([us[1]]);
    assert Canonical(us);
    file := Join(us);
    assert Join([us[1]]) == StartCode(k) + Ones(second);
    SplitInvertsJoin(us);
    SplitParts(file, 0, us);
    SplitParts(file, 3 + first, [us[1]]);
  }

  lemma {:induction false} StuckFile(file: seq<byte>, cap: nat, loaded: bool, i: nat)
    requires 4 <= cap < |file| < 2 * cap && CodeAt(file, 0) != 0
    requires NextCode(file, CodeAt(file, 0)) == |file| - cap
    requires cap < |file| - cap + CodeAt(file, |file| - cap)
    ensures Fetch(State(file, cap, loaded, 0), i) == Some([])
    decreases i
  {
    hide State, GetFrame, NextCode, CodeAt, Open, Load;
    TakenForEnd(file, cap, loaded);
    if i > 0 {
      StuckFile(file, cap, true, i - 1);
    }
  }

  lemma SomeTightFile(cap: nat, size: nat) returns (file: seq<byte>)
    requires 6 <= cap && 2 * cap - 3 <= size < 2 * cap
    ensures |file| == size && !Exact(file, cap)
  {
    var k := if size == 2 * cap - 3 then 4 else 3;
    file := TwoUnitFile(size - cap - 3, k, cap - k);
    StuckFile(file, cap, false, 1);
    assert Open(file, cap) == State(file, cap, false, 0);
    assert Fetch(Open(file, cap), 1) != Some(NalAt(Split(file, 0), 1));
  }

  /** The splitter returns the NAL units of EVERY file of a given size exactly when that size
      leaves four bytes of the two arrays free. */
  lemma ExactIffItFits(cap: nat, size: nat)
    requires 6 <= cap
    ensures (forall file: seq<byte> | |file| == size :: Exact(file, cap)) <==> size + 4 <= 2 * cap
  {
    if size + 4 <= 2 * cap {
      forall file: seq<byte> | |file| == size ensures Exact(file, cap) {
        FitsIsExact(file, cap);
      }
    } else if 2 * cap <= size {
      var file := SomeLongFile(cap, size);
    } else {
      var file := SomeTightFile(cap, size);
    }
  }
}
