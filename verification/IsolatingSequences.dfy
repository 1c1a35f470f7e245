/** BD7 and BD13: when the chains of the code are the isolating run sequences of UAX #9, which run through
    level runs as long as the levels allow. */
module IsolatingSequences {
  import opened BidiTypes
  import opened ParagraphLevels
  import opened ExplicitText
  import opened LevelRuns
  import opened TextChains
  import opened OpenIsolates
  import opened IsolatePairs
  import opened Resolution

  // ---------------------------------------------------------------- BD7 and BD13

  /** No character of its level follows `a` in its level run (BD7, removed characters skipped). */
  ghost predicate EndsLevelRun(x: seq<int>, a: nat) {
    forall b: nat {:trigger LevelNeighbours(x, a, b)} :: !LevelNeighbours(x, a, b)
  }

  ghost predicate StartsLevelRun(x: seq<int>, b: nat) {
    forall a: nat {:trigger LevelNeighbours(x, a, b)} :: !LevelNeighbours(x, a, b)
  }

  /** BD13: `b` comes next after `a`, in the same level run or, when `a` is an initiator at the end of its
      run, as the matching PDI at the start of another. */
  ghost predicate Follows(text: seq<BidiClass>, x: seq<int>, a: nat, b: nat) {
    || LevelNeighbours(x, a, b)
    || (Matches(text, a, b) && EndsLevelRun(x, a) && StartsLevelRun(x, b))
  }

  /** From `a` on the sequence comes to `b`. */
  ghost predicate Reaches(text: seq<BidiClass>, x: seq<int>, a: nat, b: nat)
    decreases b - a
  {
    || a == b
    || exists c: nat {:trigger Follows(text, x, a, c)} :: a < c <= b && Follows(text, x, a, c) && Reaches(text, x, c, b)
  }

  /** BD13 puts the two characters in one isolating run sequence. */
  ghost predicate SameSequence(text: seq<BidiClass>, x: seq<int>, a: nat, b: nat) {
    if a <= b then Reaches(text, x, a, b) else Reaches(text, x, b, a)
  }

  ghost predicate InOneChain(sqs: seq<RunSequence>, a: nat, b: nat) {
    exists s {:trigger sqs[s]} :: 0 <= s < |sqs| && a in sqs[s].indices && b in sqs[s].indices
  }

  /** The chains are the sequences. */
  ghost predicate MeetsBD13(text: seq<BidiClass>, x: seq<int>, sqs: seq<RunSequence>) {
    forall a: nat, b: nat {:trigger InOneChain(sqs, a, b)} :: a < |x| && b < |x| && Visible(x[a]) && Visible(x[b]) ==>
      (InOneChain(sqs, a, b) <==> SameSequence(text, x, a, b))
  }

  /** No initiator has a neighbour of its level after it, other than a PDI. */
  ghost predicate NothingSplit(text: seq<BidiClass>, x: seq<int>) {
    forall a: nat, b: nat {:trigger LevelNeighbours(x, a, b)} ::
      LevelNeighbours(x, a, b) && b < |text| && text[a].IsIsoInit() ==> text[b].PopDirectionalIsolate?
  }

  // ---------------------------------------------------------------- isolates of such texts

  lemma {:induction false} FirstVisible(x: seq<int>, i: nat, k: nat) returns (v: nat)
    requires i < k < |x| && Visible(x[k])
    ensures i < v <= k && Visible(x[v]) && forall m {:trigger x[m]} :: i < m < v ==> !Visible(x[m])
    decreases k - i
  {
    if Visible(x[i + 1]) {
      v := i + 1;
    } else {
      v := FirstVisible(x, i + 1, k);
    }
  }

  /** An isolate with its own level inside shows nothing while it is open. */
  lemma FlatShowsNothing(text: seq<BidiClass>, x: seq<int>, i: nat, k: nat)
    requires IsolateLevels(text, x) && NothingSplit(text, x) && i < |text| && text[i].IsIsoInit()
    requires IsFlat(text, x, i) && i < k < |text| - 1 && Visible(x[k])
    ensures !Opens(text, i, k)
  {
    if Opens(text, i, k) {
      var v := FirstVisible(x, i, k);
      StillOpen(text, i, k, v);
      assert !text[v].ParagraphSeparator? && x[v] == x[i];
      assert LevelNeighbours(x, i, v);
      AdjacentMatch(text, x, i, v);
    }
  }

  lemma StillOpen(text: seq<BidiClass>, i: nat, k: nat, v: nat)
    requires Opens(text, i, k) && i < v <= k
    ensures Opens(text, i, v)
  {
  }

  lemma FlatIsHarmless(text: seq<BidiClass>, x: seq<int>, i: nat)
    requires IsolateLevels(text, x) && NothingSplit(text, x) && i < |text| && text[i].IsIsoInit()
    requires IsFlat(text, x, i)
    ensures IsHarmless(text, i)
  {
    forall j, k {:trigger Matches(text, i, j), text[k]} | Matches(text, i, j) && i < k < j
      ensures text[k].IsRemovedByX9()
    {
      if Visible(x[k]) {
        MatchOpens(text, i, j, k);
        FlatShowsNothing(text, x, i, k);
      }
    }
    forall h, j {:trigger Matches(text, h, j)} | i < h && Matches(text, h, j) ensures HasMatch(text, i) {
      assert Visible(x[h]);
      FlatShowsNothing(text, x, i, h);
    }
  }

  lemma UnsplitLifts(text: seq<BidiClass>, x: seq<int>)
    requires IsolateLevels(text, x) && NothingSplit(text, x)
    ensures IsolatesLift(text, x)
  {
    forall i {:trigger text[i]} | 0 <= i < |text| && text[i].IsIsoInit()
      ensures Lifts(text, x, i) || IsHarmless(text, i)
    {
      if !Lifts(text, x, i) {
        FlatIsHarmless(text, x, i);
      }
    }
  }

  /** A matching PDI always comes next. */
  lemma MatchFollows(text: seq<BidiClass>, x: seq<int>, i: nat, j: nat)
    requires IsolatesLift(text, x) && Matches(text, i, j)
    ensures Follows(text, x, i, j)
  {
    assert Visible(x[i]) && Visible(x[j]) && x[i] == x[j];
    forall d: nat {:trigger LevelNeighbours(x, i, d)} | LevelNeighbours(x, i, d) ensures d == j {
      if d < j {
        InsideHigher(text, x, i, j, d);
      }
    }
    forall d: nat {:trigger LevelNeighbours(x, d, j)} | LevelNeighbours(x, d, j) ensures d == i {
      if i < d {
        InsideHigher(text, x, i, j, d);
      }
    }
  }

  // ---------------------------------------------------------------- what follows is in the chain

  lemma RunInChain(text: seq<BidiClass>, x: seq<int>, base: int, runs: seq<LevelRun>, sqs: seq<RunSequence>,
                   s: nat, p: nat, k: nat)
    requires Built(text, base, runs, sqs) && s < |sqs| && InRun(runs, sqs[s].runs, p, k)
    ensures k in sqs[s].indices
  {
    assert InRunOf(runs, sqs[s].runs, k);
    ChainMembers(runs, sqs[s].runs, k);
  }

  lemma FollowsInChain(text: seq<BidiClass>, x: seq<int>, base: int, runs: seq<LevelRun>, upto: nat,
                       sqs: seq<RunSequence>, a: nat, b: nat)
    requires IsolatesLift(text, x) && NothingSplit(text, x) && SequencedText(text, x, runs, upto, sqs)
    requires Built(text, base, runs, sqs) && Follows(text, x, a, b)
    ensures InOneChain(sqs, a, b)
  {
    if LevelNeighbours(x, a, b) && !text[a].IsIsoInit() {
      var r := SplitIff(text, x, runs, upto, a, b);
      var s, p := PositionOf(text, x, runs, sqs, r);
      RunInChain(text, x, base, runs, sqs, s, p, a);
      RunInChain(text, x, base, runs, sqs, s, p, b);
    } else {
      if LevelNeighbours(x, a, b) {
        AdjacentMatch(text, x, a, b);
      }
      MatchInChain(text, x, base, runs, upto, sqs, a, b);
    }
  }

  lemma MatchInChain(text: seq<BidiClass>, x: seq<int>, base: int, runs: seq<LevelRun>, upto: nat,
                     sqs: seq<RunSequence>, a: nat, b: nat)
    requires IsolatesLift(text, x) && SequencedText(text, x, runs, upto, sqs)
    requires Built(text, base, runs, sqs) && Matches(text, a, b)
    ensures InOneChain(sqs, a, b)
  {
    var s, p := MatchIsJoined(text, x, runs, upto, sqs, a, b);
    var q := sqs[s].runs[p];
    RunBounds(text, x, runs, upto, q, q);
    RunInChain(text, x, base, runs, sqs, s, p, a);
    RunInChain(text, x, base, runs, sqs, s, p + 1, b);
  }

  lemma ChainAcross(text: seq<BidiClass>, x: seq<int>, base: int, runs: seq<LevelRun>, upto: nat,
                    sqs: seq<RunSequence>, a: nat, c: nat, b: nat)
    requires SequencedText(text, x, runs, upto, sqs) && Built(text, base, runs, sqs)
    requires InOneChain(sqs, a, c) && InOneChain(sqs, c, b)
    ensures InOneChain(sqs, a, b)
  {
    var s :| 0 <= s < |sqs| && a in sqs[s].indices && c in sqs[s].indices;
    var t :| 0 <= t < |sqs| && c in sqs[t].indices && b in sqs[t].indices;
    DifferentChains(text, x, base, runs, upto, sqs, s, t, c);
  }

  lemma {:induction false} ReachesInChain(text: seq<BidiClass>, x: seq<int>, base: int, runs: seq<LevelRun>,
                                          upto: nat, sqs: seq<RunSequence>, a: nat, b: nat)
    requires IsolatesLift(text, x) && NothingSplit(text, x) && SequencedText(text, x, runs, upto, sqs)
    requires Built(text, base, runs, sqs) && a < |x| && Visible(x[a]) && Reaches(text, x, a, b)
    ensures InOneChain(sqs, a, b)
    decreases b - a
  {
    if a == b {
      var s := VisibleInOneChain(text, x, base, runs, upto, sqs, a);
    } else {
      var c: nat :| a < c <= b && Follows(text, x, a, c) && Reaches(text, x, c, b);
      FollowsVisible(text, x, a, c);
      FollowsInChain(text, x, base, runs, upto, sqs, a, c);
      ReachesInChain(text, x, base, runs, upto, sqs, c, b);
      ChainAcross(text, x, base, runs, upto, sqs, a, c, b);
    }
  }

  lemma FollowsVisible(text: seq<BidiClass>, x: seq<int>, a: nat, b: nat)
    requires IsolateLevels(text, x) && Follows(text, x, a, b)
    ensures a < b < |x| && Visible(x[a]) && Visible(x[b]) && x[a] == x[b]
  {
  }

  // ---------------------------------------------------------------- what is in the chain follows

  /** The next character of the chain of `a` on the way to `b`. */
  lemma NextInChain(text: seq<BidiClass>, x: seq<int>, base: int, runs: seq<LevelRun>, upto: nat,
                    sqs: seq<RunSequence>, a: nat, b: nat) returns (c: nat)
    requires IsolatesLift(text, x) && SequencedText(text, x, runs, upto, sqs) && Built(text, base, runs, sqs)
    requires a < b < |x| && Visible(x[a]) && Visible(x[b]) && InOneChain(sqs, a, b)
    ensures a < c <= b && Follows(text, x, a, c) && InOneChain(sqs, c, b) && Visible(x[c])
  {
    var s :| 0 <= s < |sqs| && a in sqs[s].indices && b in sqs[s].indices;
    var p := RunPosition(text, x, base, runs, upto, sqs, s, a);
    var q := RunPosition(text, x, base, runs, upto, sqs, s, b);
    var m;
    c, m := NextInRuns(text, x, runs, upto, sqs, s, p, q, a, b);
    RunInChain(text, x, base, runs, sqs, s, m, c);
  }

  /** The same for the runs at positions `p` and `q` of the sequence; the next character is in the run at `m`. */
  lemma NextInRuns(text: seq<BidiClass>, x: seq<int>, runs: seq<LevelRun>, upto: nat, sqs: seq<RunSequence>,
                   s: nat, p: nat, q: nat, a: nat, b: nat) returns (c: nat, m: nat)
    requires IsolatesLift(text, x) && SequencedText(text, x, runs, upto, sqs)
    requires a < b < |x| && Visible(x[a]) && Visible(x[b]) && s < |sqs|
    requires InRun(runs, sqs[s].runs, p, a) && InRun(runs, sqs[s].runs, q, b)
    ensures a < c <= b && Follows(text, x, a, c) && Visible(x[c]) && InRun(runs, sqs[s].runs, m, c)
  {
    var r := sqs[s].runs[p];
    c := FirstVisible(x, a, b);
    if c < runs[r].end {
      m := p;
      SameRunNeighbours(text, x, runs, upto, r, a, c);
    } else {
      LaterRun(text, x, runs, upto, sqs, s, p, q, a, b);
      m := p + 1;
      c := ThroughJunction(text, x, runs, upto, sqs, s, p, q, a, b);
    }
  }

  /** Position `k` is in the `p`-th of the listed runs. */
  ghost predicate InRun(runs: seq<LevelRun>, idxs: seq<nat>, p: nat, k: nat) {
    p < |idxs| && idxs[p] < |runs| && runs[idxs[p]].start <= k < runs[idxs[p]].end
  }

  lemma RunPosition(text: seq<BidiClass>, x: seq<int>, base: int, runs: seq<LevelRun>, upto: nat,
                    sqs: seq<RunSequence>, s: nat, k: nat) returns (p: nat)
    requires SequencedText(text, x, runs, upto, sqs) && Built(text, base, runs, sqs)
    requires s < |sqs| && k in sqs[s].indices
    ensures InRun(runs, sqs[s].runs, p, k)
  {
    ChainMembers(runs, sqs[s].runs, k);
    p :| 0 <= p < |sqs[s].runs| && runs[sqs[s].runs[p]].start <= k < runs[sqs[s].runs[p]].end;
  }

  lemma SameRunNeighbours(text: seq<BidiClass>, x: seq<int>, runs: seq<LevelRun>, upto: nat, r: nat, a: nat, c: nat)
    requires LevelRunsOf(text, x, runs, upto) && r < |runs| && runs[r].start <= a < c < runs[r].end
    requires c < |x| && Visible(x[a]) && Visible(x[c]) && forall m {:trigger x[m]} :: a < m < c ==> !Visible(x[m])
    ensures LevelNeighbours(x, a, c)
  {
    assert IsSpan(text, x, runs[r].start, runs[r].end, runs[r].level);
  }

  lemma LaterRun(text: seq<BidiClass>, x: seq<int>, runs: seq<LevelRun>, upto: nat, sqs: seq<RunSequence>,
                 s: nat, p: nat, q: nat, a: nat, b: nat)
    requires SequencedText(text, x, runs, upto, sqs) && s < |sqs|
    requires InRun(runs, sqs[s].runs, p, a) && InRun(runs, sqs[s].runs, q, b) && runs[sqs[s].runs[p]].end <= b
    ensures p < q
  {
    if q < p {
      RunsAscend(text, x, runs, sqs, s, q, p);
      RunBounds(text, x, runs, upto, sqs[s].runs[q], sqs[s].runs[p]);
    }
  }

  lemma RunsAscend(text: seq<BidiClass>, x: seq<int>, runs: seq<LevelRun>, sqs: seq<RunSequence>, s: nat,
                   p: nat, q: nat)
    requires SequencesOf(text, x, runs, sqs) && s < |sqs| && p < q < |sqs[s].runs|
    ensures sqs[s].runs[p] < sqs[s].runs[q]
  {
    SequenceAscending(text, x, runs, sqs, s);
  }

  /** The last visible character of a run with a run after it in its sequence is the initiator, and its PDI
      comes next. */
  lemma ThroughJunction(text: seq<BidiClass>, x: seq<int>, runs: seq<LevelRun>, upto: nat, sqs: seq<RunSequence>,
                        s: nat, p: nat, q: nat, a: nat, b: nat) returns (c: nat)
    requires IsolatesLift(text, x) && SequencedText(text, x, runs, upto, sqs) && s < |sqs| && p < q
    requires InRun(runs, sqs[s].runs, p, a) && InRun(runs, sqs[s].runs, q, b)
    requires a < b < |x| && Visible(x[b])
    requires forall m {:trigger x[m]} :: a < m < |x| && m < runs[sqs[s].runs[p]].end ==> !Visible(x[m])
    ensures a < c <= b && Follows(text, x, a, c) && Visible(x[c]) && InRun(runs, sqs[s].runs, p + 1, c)
  {
    var i, j := JunctionAt(text, x, runs, upto, sqs, s, p);
    JunctionEnds(text, x, runs, upto, sqs, s, p, i, j);
    JoinedIsMatch(text, x, runs, upto, sqs, s, p, i, j);
    MatchFollows(text, x, i, j);
    LastIs(x, runs[sqs[s].runs[p]], a, i);
    JunctionStart(x, runs, sqs, s, p, i, j);
    FirstOfLater(text, x, runs, upto, sqs, s, p + 1, q, sqs[s].runs[p + 1], sqs[s].runs[q], j, b);
    c := j;
  }

  lemma LastIs(x: seq<int>, run: LevelRun, a: nat, i: nat)
    requires run.start <= a < run.end == i + 1 && i < |x| && Visible(x[i])
    requires forall m {:trigger x[m]} :: a < m < |x| && m < run.end ==> !Visible(x[m])
    ensures a == i
  {
  }

  lemma JunctionStart(x: seq<int>, runs: seq<LevelRun>, sqs: seq<RunSequence>, s: nat, p: nat, i: nat, j: nat)
    requires JoinedAt(x, runs, sqs, s, p, i, j)
    ensures InRun(runs, sqs[s].runs, p + 1, j) && StartsAt(x, runs[sqs[s].runs[p + 1]], j) && Visible(x[j])
  {
  }

  lemma FirstOfLater(text: seq<BidiClass>, x: seq<int>, runs: seq<LevelRun>, upto: nat, sqs: seq<RunSequence>,
                     s: nat, m: nat, q: nat, d: nat, e: nat, j: nat, b: nat)
    requires SequencesOf(text, x, runs, sqs) && Tiles(text, x, runs, upto) && s < |sqs| && m <= q < |sqs[s].runs|
    requires sqs[s].runs[m] == d < |runs| && StartsAt(x, runs[d], j)
    requires sqs[s].runs[q] == e < |runs| && runs[e].start <= b < runs[e].end && b < |x| && Visible(x[b])
    ensures j <= b
  {
    if m < q {
      RunsAscend(text, x, runs, sqs, s, m, q);
    }
    StartComesFirst(text, x, runs, upto, d, e, j, b);
  }

  lemma StartComesFirst(text: seq<BidiClass>, x: seq<int>, runs: seq<LevelRun>, upto: nat, d: nat, e: nat,
                        j: nat, b: nat)
    requires Tiles(text, x, runs, upto) && d <= e < |runs| && StartsAt(x, runs[d], j) && b < |x| && Visible(x[b])
    requires runs[e].start <= b < runs[e].end
    ensures j <= b
  {
    RunBounds(text, x, runs, upto, d, e);
  }

  lemma {:induction false} ChainReaches(text: seq<BidiClass>, x: seq<int>, base: int, runs: seq<LevelRun>,
                                        upto: nat, sqs: seq<RunSequence>, a: nat, b: nat)
    requires IsolatesLift(text, x) && SequencedText(text, x, runs, upto, sqs) && Built(text, base, runs, sqs)
    requires a <= b < |x| && Visible(x[a]) && Visible(x[b]) && InOneChain(sqs, a, b)
    ensures Reaches(text, x, a, b)
    decreases b - a
  {
    if a < b {
      var c := NextInChain(text, x, base, runs, upto, sqs, a, b);
      ChainReaches(text, x, base, runs, upto, sqs, c, b);
    }
  }

  lemma UnsplitMeetsBD13(text: seq<BidiClass>, x: seq<int>, base: int, runs: seq<LevelRun>, upto: nat,
                         sqs: seq<RunSequence>)
    requires IsolateLevels(text, x) && NothingSplit(text, x)
    requires SequencedText(text, x, runs, upto, sqs) && Built(text, base, runs, sqs)
    ensures IsolatesLift(text, x) && MeetsBD13(text, x, sqs)
  {
    UnsplitLifts(text, x);
    forall a: nat, b: nat {:trigger InOneChain(sqs, a, b)} |
      a < |x| && b < |x| && Visible(x[a]) && Visible(x[b])
      ensures InOneChain(sqs, a, b) <==> SameSequence(text, x, a, b)
    {
      OneChainIff(text, x, base, runs, upto, sqs, Min(a, b), Max(a, b));
      assert InOneChain(sqs, a, b) == InOneChain(sqs, Min(a, b), Max(a, b));
    }
  }

  lemma OneChainIff(text: seq<BidiClass>, x: seq<int>, base: int, runs: seq<LevelRun>, upto: nat,
                    sqs: seq<RunSequence>, a: nat, b: nat)
    requires IsolatesLift(text, x) && NothingSplit(text, x)
    requires SequencedText(text, x, runs, upto, sqs) && Built(text, base, runs, sqs)
    requires a <= b < |x| && Visible(x[a]) && Visible(x[b])
    ensures InOneChain(sqs, a, b) <==> Reaches(text, x, a, b)
  {
    if InOneChain(sqs, a, b) {
      ChainReaches(text, x, base, runs, upto, sqs, a, b);
    }
    if Reaches(text, x, a, b) {
      ReachesInChain(text, x, base, runs, upto, sqs, a, b);
    }
  }

  // ---------------------------------------------------------------- and only then

  /** The run after the one of an initiator: the neighbour of its level is its first visible character. */
  lemma NextRunStarts(text: seq<BidiClass>, x: seq<int>, runs: seq<LevelRun>, upto: nat, r: nat, a: nat, b: nat)
    requires IsolateLevels(text, x) && LevelRunsOf(text, x, runs, upto) && LevelNeighbours(x, a, b)
    requires r < |runs| && runs[r].end == a + 1
    ensures r + 1 < |runs| && StartsAt(x, runs[r + 1], b)
  {
    RunBounds(text, x, runs, upto, r, r);
    assert a + 1 <= b && Visible(x[b]);
    assert r + 1 < |runs|;
    var next := runs[r + 1];
    assert runs[r].end == next.start;
    RunBounds(text, x, runs, upto, r + 1, r + 1);
    var m := VisibleIn(text, x, next);
  }

  /** An initiator and a neighbour of its level that is no PDI are never in one chain. */
  lemma SplitApart(text: seq<BidiClass>, x: seq<int>, base: int, runs: seq<LevelRun>, upto: nat,
                   sqs: seq<RunSequence>, a: nat, b: nat)
    requires SequencedText(text, x, runs, upto, sqs) && Built(text, base, runs, sqs)
    requires LevelNeighbours(x, a, b) && b < |text| && text[a].IsIsoInit() && InOneChain(sqs, a, b)
    ensures text[b].PopDirectionalIsolate?
  {
    var s :| 0 <= s < |sqs| && a in sqs[s].indices && b in sqs[s].indices;
    var p := RunPosition(text, x, base, runs, upto, sqs, s, a);
    var q := RunPosition(text, x, base, runs, upto, sqs, s, b);
    var c, d := sqs[s].runs[p], sqs[s].runs[q];
    SplitRuns(text, x, runs, upto, c, d, a, b);
    NextIsPdi(text, x, runs, sqs, s, p, q, c, d, b);
  }

  /** Two runs in a row are in one sequence only if the second starts with a PDI. */
  lemma NextIsPdi(text: seq<BidiClass>, x: seq<int>, runs: seq<LevelRun>, sqs: seq<RunSequence>,
                  s: nat, p: nat, q: nat, c: nat, d: nat, b: nat)
    requires SequencesOf(text, x, runs, sqs) && s < |sqs| && p < |sqs[s].runs| && q < |sqs[s].runs|
    requires sqs[s].runs[p] == c && sqs[s].runs[q] == d == c + 1 < |runs| && StartsAt(x, runs[d], b)
    ensures b < |text| && text[b].PopDirectionalIsolate?
  {
    NextPosition(text, x, runs, sqs, s, p, q);
    LinkedPair(text, x, runs, sqs, s, p, c, d);
    StartIsPdi(text, x, runs[d], b);
  }

  lemma StartIsPdi(text: seq<BidiClass>, x: seq<int>, run: LevelRun, b: nat)
    requires |text| == |x| && StartsAt(x, run, b) && StartsWithPdi(text, x, run)
    ensures text[b].PopDirectionalIsolate?
  {
    SignificantFirst(text, x, run.start, run.end, b);
  }

  lemma SplitRuns(text: seq<BidiClass>, x: seq<int>, runs: seq<LevelRun>, upto: nat, c: nat, d: nat, a: nat, b: nat)
    requires IsolateLevels(text, x) && LevelRunsOf(text, x, runs, upto) && c < |runs| && d < |runs|
    requires LevelNeighbours(x, a, b) && text[a].IsIsoInit()
    requires runs[c].start <= a < runs[c].end && runs[d].start <= b < runs[d].end
    ensures d == c + 1 && StartsAt(x, runs[d], b)
  {
    var r := InitiatorEndsRun(text, x, runs, upto, a);
    TextChains.SameRun(text, x, runs, upto, c, r, a);
    NextRunStarts(text, x, runs, upto, c, a, b);
    TextChains.SameRun(text, x, runs, upto, d, c + 1, b);
  }

  lemma NextPosition(text: seq<BidiClass>, x: seq<int>, runs: seq<LevelRun>, sqs: seq<RunSequence>, s: nat, p: nat,
                     q: nat)
    requires SequencesOf(text, x, runs, sqs) && s < |sqs| && p < |sqs[s].runs| && q < |sqs[s].runs|
    requires sqs[s].runs[q] == sqs[s].runs[p] + 1
    ensures q == p + 1
  {
    SequenceAscending(text, x, runs, sqs, s);
    var m := Min(p + 1, |sqs[s].runs| - 1);
    assert sqs[s].runs[m] >= 0;
  }

  lemma MeetingSplitsNothing(text: seq<BidiClass>, x: seq<int>, base: int, runs: seq<LevelRun>, upto: nat,
                             sqs: seq<RunSequence>)
    requires SequencedText(text, x, runs, upto, sqs) && Built(text, base, runs, sqs) && MeetsBD13(text, x, sqs)
    ensures NothingSplit(text, x)
  {
    forall a: nat, b: nat {:trigger LevelNeighbours(x, a, b)} |
      LevelNeighbours(x, a, b) && b < |text| && text[a].IsIsoInit()
      ensures text[b].PopDirectionalIsolate?
    {
      assert Follows(text, x, a, b) && Reaches(text, x, b, b);
      assert SameSequence(text, x, a, b);
      assert InOneChain(sqs, a, b);
      SplitApart(text, x, base, runs, upto, sqs, a, b);
    }
  }

  // ---------------------------------------------------------------- the condition on texts

  /** An isolate that overflows shows nothing before its PDI, or the separator when it has none. */
  ghost predicate OverflowIsEmpty(base: int, text: seq<BidiClass>) {
    forall i: nat, k: nat {:trigger Opens(text, i, k)} :: Opens(text, i, k) && !Stacked(base, text, i) ==>
      text[k].IsRemovedByX9() || text[k].ParagraphSeparator?
  }

  /** No initiator at the base level stands right before the separator. */
  ghost predicate SeparatorIsClear(base: int, text: seq<BidiClass>) {
    forall i: nat, k: nat {:trigger Opens(text, i, k)} :: Opens(text, i, k) && text[k].ParagraphSeparator? ==>
      ExplicitLevel(base, text, i) != base || exists m {:trigger text[m]} :: i < m < k && !text[m].IsRemovedByX9()
  }

  lemma SplitOverflowOrSeparator(base: int, text: seq<BidiClass>, x: seq<int>, a: nat, b: nat)
    requires 0 <= base <= 1 && Accepted(base, text) && IsolateLevels(text, x) && x == LevelsOf(base, text)
    requires LevelNeighbours(x, a, b) && b < |text| && text[a].IsIsoInit() && !text[b].PopDirectionalIsolate?
    ensures !OverflowIsEmpty(base, text) || !SeparatorIsClear(base, text)
  {
    NeighbourOpens(text, x, a, b);
    InitiatorLevels(base, text, x, a);
    assert x[a] == ExplicitLevel(base, text, a) && x[b] == ExplicitLevel(base, text, b);
    assert forall m {:trigger text[m]} :: a < m < b ==> !Visible(x[m]);
  }

  /** With nothing visible in between, an initiator is still open at a character that is no PDI. */
  lemma NeighbourOpens(text: seq<BidiClass>, x: seq<int>, a: nat, b: nat)
    requires IsolateLevels(text, x) && a < b < |text| && text[a].IsIsoInit() && !text[b].PopDirectionalIsolate?
    requires forall k {:trigger x[k]} :: a < k < b ==> !Visible(x[k])
    ensures Opens(text, a, b)
  {
    forall j {:trigger Matches(text, a, j)} | a < j <= b ensures !Matches(text, a, j) {
      assert j < b ==> !Visible(x[j]);
    }
  }

  lemma UnsplitOverflowIsEmpty(base: int, text: seq<BidiClass>, x: seq<int>, i: nat, k: nat)
    requires 0 <= base <= 1 && Accepted(base, text) && IsolateLevels(text, x) && x == LevelsOf(base, text)
    requires NothingSplit(text, x) && Opens(text, i, k) && !Stacked(base, text, i)
    ensures text[k].IsRemovedByX9() || text[k].ParagraphSeparator?
  {
    if !text[k].IsRemovedByX9() && !text[k].ParagraphSeparator? {
      InitiatorLevels(base, text, x, i);
      var v := FirstVisible(x, i, k);
      StillOpen(text, i, k, v);
      assert v < k ==> !text[v].ParagraphSeparator?;
      assert LevelNeighbours(x, i, v);
      AdjacentMatch(text, x, i, v);
    }
  }

  lemma UnsplitSeparatorIsClear(base: int, text: seq<BidiClass>, x: seq<int>, i: nat, k: nat)
    requires IsolateLevels(text, x) && x == LevelsOf(base, text)
    requires NothingSplit(text, x) && Opens(text, i, k) && text[k].ParagraphSeparator?
    ensures ExplicitLevel(base, text, i) != base || exists m {:trigger text[m]} :: i < m < k && !text[m].IsRemovedByX9()
  {
    if forall m {:trigger text[m]} :: i < m < k ==> text[m].IsRemovedByX9() {
      assert Visible(x[i]) && x[i] == ExplicitLevel(base, text, i) && x[k] == ExplicitLevel(base, text, k);
      assert x[i] == base ==> LevelNeighbours(x, i, k) by {
        forall m {:trigger x[m]} | i < m < k ensures !Visible(x[m]) {
          assert text[m].IsRemovedByX9();
        }
      }
    }
  }

  /** Said on the text, as far as the machine of X1 to X8 sees it. */
  lemma NothingSplitIff(base: int, text: seq<BidiClass>)
    requires 0 <= base <= 1 && Accepted(base, text) && PlainControls(text)
    ensures NothingSplit(text, LevelsOf(base, text)) <==> OverflowIsEmpty(base, text) && SeparatorIsClear(base, text)
  {
    var x := LevelsOf(base, text);
    TextLevels(base, text);
    if NothingSplit(text, x) {
      forall i: nat, k: nat {:trigger Opens(text, i, k)} | Opens(text, i, k) && !Stacked(base, text, i)
        ensures text[k].IsRemovedByX9() || text[k].ParagraphSeparator?
      {
        UnsplitOverflowIsEmpty(base, text, x, i, k);
      }
      forall i: nat, k: nat {:trigger Opens(text, i, k)} | Opens(text, i, k) && text[k].ParagraphSeparator?
        ensures ExplicitLevel(base, text, i) != base
             || exists m {:trigger text[m]} :: i < m < k && !text[m].IsRemovedByX9()
      {
        UnsplitSeparatorIsClear(base, text, x, i, k);
      }
    }
    if OverflowIsEmpty(base, text) && SeparatorIsClear(base, text) {
      forall a: nat, b: nat {:trigger LevelNeighbours(x, a, b)} |
        LevelNeighbours(x, a, b) && b < |text| && text[a].IsIsoInit()
        ensures text[b].PopDirectionalIsolate?
      {
        if !text[b].PopDirectionalIsolate? {
          SplitOverflowOrSeparator(base, text, x, a, b);
        }
      }
    }
  }

  /** In a text without overrides and without refused isolates the chains of the code are the isolating run
      sequences of BD13 if and only if every isolate that overflows shows nothing before its PDI or the end of
      the paragraph, and no initiator at the base level stands right before the separator. */
  lemma BD13Iff(base: int, text: seq<BidiClass>, runs: seq<LevelRun>, upto: nat, sqs: seq<RunSequence>)
    requires 0 <= base <= 1 && Accepted(base, text) && PlainControls(text)
    requires Sequencing(base, ClassesOf(base, text), LevelsOf(base, text), runs, upto, sqs)
    ensures MeetsBD13(text, LevelsOf(base, text), sqs) <==> OverflowIsEmpty(base, text) && SeparatorIsClear(base, text)
  {
    var x := LevelsOf(base, text);
    ClassesKept(base, text);
    TextLevels(base, text);
    NothingSplitIff(base, text);
    if NothingSplit(text, x) {
      UnsplitMeetsBD13(text, x, base, runs, upto, sqs);
    }
    if MeetsBD13(text, x, sqs) {
      MeetingSplitsNothing(text, x, base, runs, upto, sqs);
    }
  }
}
