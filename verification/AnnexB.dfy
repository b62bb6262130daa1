/**
 The byte stream format of Annex B of ITU-T H.264 as the splitter reads it: NAL units, each
 behind a start code 00 00 01 or 00 00 00 01. Positions only; no buffers.
 */
module AnnexB {
  import opened Bytes

  datatype Unit = Unit(code: nat, nal: seq<byte>)

  /** The length of the start code at position p, 3 before 4; 0 when there is none. */
  function CodeAt(s: seq<byte>, p: nat): nat {
    if p + 3 <= |s| && s[p] == 0 && s[p + 1] == 0 && s[p + 2] == 1 then 3
    else if p + 4 <= |s| && s[p] == 0 && s[p + 1] == 0 && s[p + 2] == 0 && s[p + 3] == 1 then 4
    else 0
  }

  /** The first position from p on that holds a start code, or the end. */
  function NextCode(s: seq<byte>, p: nat): (q: nat)
    requires p <= |s|
    ensures p <= q <= |s|
    ensures forall i :: p <= i < q ==> CodeAt(s, i) == 0
    ensures q < |s| ==> CodeAt(s, q) != 0
    decreases |s| - p
  {
    if p == |s| || CodeAt(s, p) != 0 then p else NextCode(s, p + 1)
  }

  function Split(s: seq<byte>, p: nat): seq<Unit>
    requires p <= |s|
    decreases |s| - p
  {
    var k := CodeAt(s, p);
    if k == 0 then [] else
      var q := NextCode(s, p + k);
      [Unit(k, s[p + k..q])] + Split(s, q)
  }

  function StartCode(k: nat): seq<byte> {
    if k == 3 then [0, 0, 1] else [0, 0, 0, 1]
  }

  function Join(us: seq<Unit>): seq<byte> {
    if us == [] then [] else StartCode(us[0].code) + us[0].nal + Join(us[1..])
  }

  ghost predicate NoCode(nal: seq<byte>) {
    forall i :: 0 <= i < |nal| ==> CodeAt(nal, i) == 0
  }

  /** A NAL may stand in front of a start code of length k. */
  predicate MayPrecede(nal: seq<byte>, k: nat) {
    k == 3 ==> nal == [] || nal[|nal| - 1] != 0
  }

  /** These units may stand behind that NAL. */
  predicate MayFollow(nal: seq<byte>, rest: seq<Unit>) {
    rest != [] ==> MayPrecede(nal, rest[0].code)
  }

  /** What a list of units must satisfy to be readable back from its byte stream: codes of 3 or
      4 bytes, no start code inside a NAL, no NAL ending in 00 in front of a 3-byte code. */
  ghost predicate Canonical(us: seq<Unit>) {
    us != [] ==>
      && (us[0].code == 3 || us[0].code == 4)
      && NoCode(us[0].nal)
      && (1 < |us| ==> MayPrecede(us[0].nal, us[1].code))
      && Canonical(us[1..])
  }

  lemma SplitParts(s: seq<byte>, p: nat, us: seq<Unit>)
    requires p <= |s| && Split(s, p) == us && us != []
    ensures CodeAt(s, p) == us[0].code != 0
    ensures var from := p + us[0].code;
            var q := NextCode(s, from);
            q == from + |us[0].nal| && s[from..q] == us[0].nal && Split(s, q) == us[1..]
  {
    var k := CodeAt(s, p);
    var q := NextCode(s, p + k);
    assert us == [Unit(k, s[p + k..q])] + Split(s, q);
  }

  // ----- Splitting loses nothing -----

  lemma {:induction false} JoinSplitFrom(s: seq<byte>, p: nat)
    requires p <= |s|
    requires p == |s| || CodeAt(s, p) != 0
    ensures Join(Split(s, p)) == s[p..]
    decreases |s| - p
  {
    if p < |s| {
      var k := CodeAt(s, p);
      var q := NextCode(s, p + k);
      JoinSplitFrom(s, q);
      StartCodeIsThere(s, p);
      PasteTwo(s, p, p + k, q);
      hide CodeAt, NextCode, StartCode;
      assert Split(s, p)[0] == Unit(k, s[p + k..q]) && Split(s, p)[1..] == Split(s, q);
    }
  }

  lemma StartCodeIsThere(s: seq<byte>, p: nat)
    requires CodeAt(s, p) != 0
    ensures StartCode(CodeAt(s, p)) == s[p..p + CodeAt(s, p)]
  {
  }

  /** Re-joining the units gives the file back exactly when the file is empty or begins with a
      start code. */
  lemma JoinInvertsSplit(s: seq<byte>)
    ensures Join(Split(s, 0)) == s <==> s == [] || CodeAt(s, 0) != 0
  {
    if s == [] || CodeAt(s, 0) != 0 {
      JoinSplitFrom(s, 0);
    }
  }

  // ----- Splitting inverts joining -----

  lemma {:induction false} SplitIsCanonical(s: seq<byte>, p: nat)
    requires p <= |s|
    ensures Canonical(Split(s, p))
    decreases |s| - p
  {
    var k := CodeAt(s, p);
    if k != 0 {
      var q := NextCode(s, p + k);
      var nal := s[p + k..q];
      forall i | 0 <= i < |nal| ensures CodeAt(nal, i) == 0 {
        assert CodeAt(s, p + k + i) == 0;
      }
      if q < |s| && CodeAt(s, q) == 3 && nal != [] {
        assert CodeAt(s, q - 1) == 0;
      }
      SplitIsCanonical(s, q);
    }
  }

  ghost predicate NoCodeBetween(s: seq<byte>, p: nat, q: nat) {
    forall i :: p <= i < q ==> CodeAt(s, i) == 0
  }

  /** No start code begins inside a NAL that is followed by the next unit's code. */
  lemma NoCodeBeforeNext(s: seq<byte>, from: nat, nal: seq<byte>, rest: seq<Unit>)
    requires from + |nal| <= |s| && s[from..from + |nal|] == nal && s[from + |nal|..] == Join(rest)
    requires NoCode(nal) && MayFollow(nal, rest)
    ensures NoCodeBetween(s, from, from + |nal|)
  {
    var q := from + |nal|;
    assert rest != [] ==> Join(rest)[0] == 0 && Join(rest)[1] == 0 && (rest[0].code != 3 ==> Join(rest)[2] == 0);
    assert forall j :: 0 <= j < |Join(rest)| ==> s[q + j] == Join(rest)[j];
    forall i | from <= i < q ensures CodeAt(s, i) == 0 {
      assert CodeAt(nal, i - from) == 0;
      assert forall j :: 0 <= j < |nal| ==> s[from + j] == nal[j];
    }
  }

  lemma UnitStartsAt(s: seq<byte>, p: nat, us: seq<Unit>)
    requires p <= |s| && s[p..] == Join(us) && us != []
    requires us[0].code == 3 || us[0].code == 4
    ensures CodeAt(s, p) == us[0].code
    ensures var from := p + us[0].code;
            var q := from + |us[0].nal|;
            q <= |s| && s[from..q] == us[0].nal && s[q..] == Join(us[1..])
  {
    var code, nal, rest := StartCode(us[0].code), us[0].nal, Join(us[1..]);
    assert s[p..] == code + nal + rest && |code| == us[0].code;
    hide Join, StartCode, CodeAt;
    assert code + nal + rest == code + (nal + rest);
    CutTwo(s, p, code, nal + rest);
    CutTwo(s, p + |code|, nal, rest);
    CodeHere(s, p, us[0].code);
  }

  lemma CodeHere(s: seq<byte>, p: nat, k: nat)
    requires k == 3 || k == 4
    requires p + k <= |s| && s[p..p + k] == StartCode(k)
    ensures CodeAt(s, p) == k
  {
    var code := s[p..p + k];
    assert s[p] == code[0] && s[p + 1] == code[1] && s[p + 2] == code[2];
    assert k == 4 ==> s[p + 3] == code[3];
  }

  lemma NextCodeIs(s: seq<byte>, p: nat, q: nat)
    requires p <= q <= |s|
    requires NoCodeBetween(s, p, q)
    requires q < |s| ==> CodeAt(s, q) != 0
    ensures NextCode(s, p) == q
  {
  }

  lemma RestStarts(s: seq<byte>, q: nat, us: seq<Unit>)
    requires q <= |s| && s[q..] == Join(us) && Canonical(us)
    ensures q < |s| ==> CodeAt(s, q) != 0
  {
    if us != [] {
      UnitStartsAt(s, q, us);
    }
  }

  lemma CanonicalParts(us: seq<Unit>)
    requires us != [] && Canonical(us)
    ensures us[0].code == 3 || us[0].code == 4
    ensures NoCode(us[0].nal) && Canonical(us[1..]) && MayFollow(us[0].nal, us[1..])
  {
    hide NoCode, MayPrecede;
  }

  lemma FirstNalEnds(s: seq<byte>, p: nat, us: seq<Unit>)
    requires p <= |s| && s[p..] == Join(us) && us != [] && Canonical(us)
    ensures var from := p + us[0].code;
            from + |us[0].nal| <= |s| && NextCode(s, from) == from + |us[0].nal|
  {
    hide *;
    CanonicalParts(us);
    UnitStartsAt(s, p, us);
    NalEnds(s, p + us[0].code, us[0].nal, us[1..]);
  }

  lemma NalEnds(s: seq<byte>, from: nat, nal: seq<byte>, rest: seq<Unit>)
    requires from + |nal| <= |s| && s[from..from + |nal|] == nal && s[from + |nal|..] == Join(rest)
    requires Canonical(rest) && NoCode(nal) && MayFollow(nal, rest)
    ensures NextCode(s, from) == from + |nal|
  {
    hide *;
    RestStarts(s, from + |nal|, rest);
    NoCodeBeforeNext(s, from, nal, rest);
    NextCodeIs(s, from, from + |nal|);
  }

  lemma {:induction false} SplitJoinFrom(s: seq<byte>, p: nat, us: seq<Unit>)
    requires p <= |s| && s[p..] == Join(us) && Canonical(us)
    ensures Split(s, p) == us
    decreases |us|
  {
    if us == [] {
      assert p == |s|;
    } else {
      UnitStartsAt(s, p, us);
      FirstNalEnds(s, p, us);
      var q := p + us[0].code + |us[0].nal|;
      SplitJoinFrom(s, q, us[1..]);
      SplitUnfolds(s, p, us, q);
    }
  }

  lemma SplitUnfolds(s: seq<byte>, p: nat, us: seq<Unit>, q: nat)
    requires us != [] && p + us[0].code <= q <= |s|
    requires CodeAt(s, p) == us[0].code != 0 && NextCode(s, p + us[0].code) == q
    requires s[p + us[0].code..q] == us[0].nal && Split(s, q) == us[1..]
    ensures Split(s, p) == us
  {
  }

  /** A list of units is read back unchanged from its byte stream exactly when every code is 3 or
      4 bytes long, no NAL holds a start code, and no NAL in front of a 3-byte code ends in 00. */
  lemma SplitInvertsJoin(us: seq<Unit>)
    ensures Split(Join(us), 0) == us <==> Canonical(us)
  {
    if Canonical(us) {
      SplitJoinFrom(Join(us), 0, us);
    } else {
      SplitIsCanonical(Join(us), 0);
    }
  }
}
