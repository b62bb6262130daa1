/** From the file to the sink: the splitter and the prefetch pipeline together. */
module Pipeline {
  import opened Bytes
  import opened AnnexB
  import opened Ring
  import opened Prefetch
  import E = H264Exact

  /** The non-empty NALs of a list of units, and the number of empty ones. */
  function Kept(us: seq<Unit>): seq<Frame> {
    if us == [] then [] else
      var last := us[|us| - 1].nal;
      Kept(us[..|us| - 1]) + if last == [] then [] else [last]
  }

  function Dropped(us: seq<Unit>): nat {
    if us == [] then 0 else Dropped(us[..|us| - 1]) + if us[|us| - 1].nal == [] then 1 else 0
  }

  /** feed(s, i) is what the i-th call of the splitter on this file returns. */
  ghost predicate FeedsFile(feed: Feed, s: nat, file: seq<byte>, cap: nat)
    requires 4 <= cap
  {
    forall i: nat :: E.Fetch(Open(file, cap), i) == Some(feed(s, i))
  }

  lemma {:induction false} ResultsAreUnits(feed: Feed, s: nat, us: seq<Unit>, n: nat)
    requires forall i: nat :: feed(s, i) == E.NalAt(us, i)
    requires n <= |us|
    ensures NonEmpty(feed, s, n) == Kept(us[..n]) && Empties(feed, s, n) == Dropped(us[..n])
    decreases n
  {
    if n == 0 {
      assert us[..0] == [];
    } else {
      ResultsAreUnits(feed, s, us, n - 1);
      assert us[..n][..n - 1] == us[..n - 1];
    }
  }

  lemma {:induction false} ResultsBehindUnits(feed: Feed, s: nat, us: seq<Unit>, n: nat)
    requires forall i: nat :: feed(s, i) == E.NalAt(us, i)
    requires |us| <= n
    ensures NonEmpty(feed, s, n) == Kept(us) && Empties(feed, s, n) == Dropped(us) + n - |us|
    decreases n
  {
    if n == |us| {
      ResultsAreUnits(feed, s, us, n);
      assert us[..n] == us;
    } else {
      ResultsBehindUnits(feed, s, us, n - 1);
      assert NonEmpty(feed, s, n) == NonEmpty(feed, s, n - 1) + [];
    }
  }

  lemma {:induction false} DroppedGrows(us: seq<Unit>, n: nat)
    requires n <= |us|
    ensures Dropped(us[..n]) <= Dropped(us)
    decreases |us| - n
  {
    if n < |us| {
      assert us[..n + 1][..n] == us[..n];
      DroppedGrows(us, n + 1);
    } else {
      assert us[..n] == us;
    }
  }

  lemma {:induction false} KeptGrows(us: seq<Unit>, n: nat)
    requires n <= |us|
    ensures Kept(us[..n]) <= Kept(us)
    decreases |us| - n
  {
    if n < |us| {
      assert us[..n + 1][..n] == us[..n];
      KeptGrows(us, n + 1);
    } else {
      assert us[..n] == us;
    }
  }

  lemma {:induction false} KeptIsNotEmpty(us: seq<Unit>)
    ensures forall i :: 0 <= i < |Kept(us)| ==> Kept(us)[i] != []
    decreases |us|
  {
    if us != [] {
      KeptIsNotEmpty(us[..|us| - 1]);
    }
  }

  lemma FileFeedsUnits(file: seq<byte>, cap: nat, feed: Feed, s: nat)
    requires 4 <= cap && E.Exact(file, cap)
    ensures FeedsFile(feed, s, file, cap) <==> forall i: nat :: feed(s, i) == E.NalAt(Split(file, 0), i)
  {
    hide E.Fetch, Open, Split, E.NalAt;
    assert forall i: nat :: E.Fetch(Open(file, cap), i) == Some(E.NalAt(Split(file, 0), i));
    if FeedsFile(feed, s, file, cap) {
      forall i: nat ensures feed(s, i) == E.NalAt(Split(file, 0), i) {
        assert E.Fetch(Open(file, cap), i) == Some(feed(s, i));
      }
    }
  }

  /** For every file that the splitter takes apart exactly, the sink has at every moment received
      the beginning of the file's non-empty NAL units. */
  lemma SinkGetsBeginning(file: seq<byte>, cap: nat, sources: nat, workers: nat, feed: Feed, actions: seq<Action>, st: State, s: nat)
    requires 4 <= cap && E.Exact(file, cap) && FeedsFile(feed, s, file, cap)
    requires Run(Init(sources), workers, feed, actions, st) && s < sources
    ensures |st.sources| == sources && st.sources[s].delivered <= Kept(Split(file, 0))
  {
    hide E.Fetch, Open, Split, E.NalAt, Run, Init, Kept, NonEmpty;
    var us := Split(file, 0);
    FileFeedsUnits(file, cap, feed, s);
    PrefetchRefinesReading(sources, workers, feed, actions, st, s);
    var n := st.sources[s].fetched;
    if n <= |us| {
      ResultsAreUnits(feed, s, us, n);
      KeptGrows(us, n);
    } else {
      ResultsBehindUnits(feed, s, us, n);
    }
  }

  /** End to end, for every file that the splitter takes apart exactly: when the server can go no
      further and is blocked on this source, the sink has received the file's non-empty NAL units
      in order, all of them if fewer than eight units are empty, otherwise those before the eighth
      empty one. */
  lemma FileReachesSink(file: seq<byte>, cap: nat, sources: nat, workers: nat, feed: Feed, actions: seq<Action>, end: State, s: nat)
    requires 4 <= cap && E.Exact(file, cap) && FeedsFile(feed, s, file, cap)
    requires Run(Init(sources), workers, feed, actions, end)
    requires 0 < workers && s < sources && Stuck(end, workers) && end.loop == Blocked(s)
    ensures |end.sources| == sources
    ensures var us := Split(file, 0);
            var n := end.sources[s].fetched;
            && (Dropped(us) < CREDITS ==> end.sources[s].delivered == Kept(us))
            && (CREDITS <= Dropped(us) ==>
                  && n <= |us| && Dropped(us[..n]) == CREDITS && us[n - 1].nal == []
                  && end.sources[s].delivered == Kept(us[..n]))
  {
    var us := Split(file, 0);
    FileFeedsUnits(file, cap, feed, s);
    InitInvariant(sources, workers, feed);
    RunKeepsInvariant(Init(sources), workers, feed, actions, end);
    StuckMeansEightEmpties(end, workers, feed, s);
    var n := end.sources[s].fetched;
    if n <= |us| {
      ResultsAreUnits(feed, s, us, n);
      DroppedGrows(us, n);
    } else {
      ResultsBehindUnits(feed, s, us, n);
      ResultsBehindUnits(feed, s, us, n - 1);
      EmptiesGrow(feed, s, n - 1, n);
    }
  }
}
