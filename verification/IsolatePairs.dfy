/** The junctions between the runs of the code: in which texts its sequences go on from run to run exactly
    where an isolate initiator meets its matching PDI.  The runs of the code end at every initiator, so this
    is not yet BD13, which `IsolatingSequences` is about. */
module IsolatePairs {
  import opened Options
  import opened BidiTypes
  import opened ParagraphLevels
  import opened ExplicitLevels
  import opened ExplicitText
  import opened OpenIsolates
  import opened LevelRuns
  import opened TextChains
  import opened Resolution

  // ---------------------------------------------------------------- runs

  /** `j` is the first visible character of the run. */
  ghost predicate StartsAt(x: seq<int>, run: LevelRun, j: int) {
    && run.start <= j < run.end <= |x| && Visible(x[j])
    && forall k {:trigger x[k]} :: run.start <= k < j ==> !Visible(x[k])
  }

  lemma {:induction false} SignificantFirst(text: seq<BidiClass>, x: seq<int>, start: nat, end: nat, j: nat)
    requires start <= j < end <= |x| == |text| && Visible(x[j])
    requires forall k {:trigger x[k]} :: start <= k < j ==> !Visible(x[k])
    ensures FirstSignificant(text, x, start, end) == Some(text[j])
    decreases j - start
  {
    if start < j {
      SignificantFirst(text, x, start + 1, end, j);
    }
  }

  lemma {:induction false} SignificantAt(text: seq<BidiClass>, x: seq<int>, start: nat, end: nat) returns (j: nat)
    requires end <= |x| == |text| && FirstSignificant(text, x, start, end).Some?
    ensures start <= j < end && Visible(x[j]) && FirstSignificant(text, x, start, end) == Some(text[j])
    ensures forall k {:trigger x[k]} :: start <= k < j ==> !Visible(x[k])
    decreases end - start
  {
    if Visible(x[start]) {
      j := start;
    } else {
      j := SignificantAt(text, x, start + 1, end);
    }
  }

  /** Two visible neighbours of one level, with only removed characters between them. */
  ghost predicate LevelNeighbours(x: seq<int>, a: nat, b: nat) {
    && a < b < |x| && Visible(x[a]) && x[a] == x[b]
    && forall k {:trigger x[k]} :: a < k < b ==> !Visible(x[k])
  }

  /** They are in one run unless the first is an isolate initiator, whether it raises the level or not. */
  lemma SplitIff(text: seq<BidiClass>, x: seq<int>, runs: seq<LevelRun>, upto: nat, a: nat, b: nat) returns (r: nat)
    requires LevelRunsOf(text, x, runs, upto) && LevelNeighbours(x, a, b)
    ensures r < |runs| && runs[r].start <= a < runs[r].end
    ensures b < runs[r].end <==> !text[a].IsIsoInit()
  {
    r := VisibleInOneRun(text, x, runs, upto, a);
    assert VisibleInit(text, x, a) <==> text[a].IsIsoInit();
    var run := runs[r];
    assert IsSpan(text, x, run.start, run.end, run.level);
    var last := run.end - 1;
    var level := x[last];
  }

  lemma StartsNoRun(text: seq<BidiClass>, x: seq<int>, runs: seq<LevelRun>, upto: nat, q: nat, k: nat, j: nat)
    requires Tiles(text, x, runs, upto) && q < |runs| && runs[q].start <= k < j < runs[q].end && k < |x|
    requires Visible(x[k])
    ensures forall r {:trigger StartsAt(x, runs[r], j)} :: 0 <= r < |runs| ==> !StartsAt(x, runs[r], j)
  {
    forall r {:trigger StartsAt(x, runs[r], j)} | 0 <= r < |runs| && runs[r].start <= j < runs[r].end ensures r == q {
      RunBounds(text, x, runs, upto, Min(q, r), Max(q, r));
    }
  }

  /** The run of an initiator ends with it. */
  lemma InitiatorEndsRun(text: seq<BidiClass>, x: seq<int>, runs: seq<LevelRun>, upto: nat, i: nat)
    returns (a: nat)
    requires IsolateLevels(text, x) && LevelRunsOf(text, x, runs, upto) && i < |text| && text[i].IsIsoInit()
    ensures a < |runs| && runs[a].end == i + 1 <= |text| && runs[a].start <= i && runs[a].level == x[i]
    ensures EndsWithInit(text, runs[a])
  {
    assert Visible(x[i]);
    a := VisibleInOneRun(text, x, runs, upto, i);
    assert VisibleInit(text, x, i);
    assert IsSpan(text, x, runs[a].start, runs[a].end, runs[a].level);
  }

  /** The run of a matched PDI starts with it. */
  lemma PdiStartsRun(text: seq<BidiClass>, x: seq<int>, runs: seq<LevelRun>, upto: nat, i: nat, j: nat)
    returns (b: nat)
    requires IsolatesLift(text, x) && LevelRunsOf(text, x, runs, upto) && Matches(text, i, j)
    ensures b < |runs| && runs[b].level == x[j] && StartsAt(x, runs[b], j)
    ensures runs[b].start < runs[b].end <= |text| && StartsWithPdi(text, x, runs[b])
  {
    assert Visible(x[j]) && Visible(x[i]);
    b := VisibleInOneRun(text, x, runs, upto, j);
    RunBounds(text, x, runs, upto, b, b);
    InitiatorOutside(text, x, runs[b], i, j);
    forall k {:trigger x[k]} | runs[b].start <= k < j ensures !Visible(x[k]) {
      if Visible(x[k]) {
        InsideHigher(text, x, i, j, k);
      }
    }
    SignificantFirst(text, x, runs[b].start, runs[b].end, j);
  }

  lemma InitiatorOutside(text: seq<BidiClass>, x: seq<int>, run: LevelRun, i: nat, j: nat)
    requires IsolateLevels(text, x) && Matches(text, i, j) && IsSpan(text, x, run.start, run.end, run.level)
    requires j < run.end
    ensures i < run.start
  {
    assert VisibleInit(text, x, i);
  }

  /** Every run between an initiator and its PDI has a higher level. */
  lemma RunsBetweenHigher(text: seq<BidiClass>, x: seq<int>, runs: seq<LevelRun>, upto: nat, i: nat, j: nat,
                          a: nat, b: nat, c: nat)
    requires IsolatesLift(text, x) && LevelRunsOf(text, x, runs, upto) && Matches(text, i, j)
    requires a < c < b < |runs| && runs[a].end == i + 1 && StartsAt(x, runs[b], j)
    ensures x[i] < runs[c].level
  {
    RunBounds(text, x, runs, upto, a, c);
    RunBounds(text, x, runs, upto, c, b);
    var m := VisibleIn(text, x, runs[c]);
    InsideHigher(text, x, i, j, m);
  }

  lemma VisibleIn(text: seq<BidiClass>, x: seq<int>, run: LevelRun) returns (m: nat)
    requires IsSpan(text, x, run.start, run.end, run.level) && Visible(run.level)
    ensures run.start <= m < run.end && x[m] == run.level
  {
    var slice := x[run.start..run.end];
    var q :| 0 <= q < |slice| && slice[q] == run.level;
    m := run.start + q;
  }

  // ---------------------------------------------------------------- sequences

  lemma PositionOf(text: seq<BidiClass>, x: seq<int>, runs: seq<LevelRun>, sqs: seq<RunSequence>, r: nat)
    returns (s: nat, p: nat)
    requires SequencesOf(text, x, runs, sqs) && r < |runs|
    ensures s < |sqs| && p < |sqs[s].runs| && sqs[s].runs[p] == r && runs[r].seqId == s + 1
    ensures runs[r].level == sqs[s].level
  {
    s := runs[r].seqId - 1;
    assert r in sqs[s].runs;
    p :| 0 <= p < |sqs[s].runs| && sqs[s].runs[p] == r;
    assert Linked(text, x, runs, sqs[s], s);
  }

  lemma SamePosition(text: seq<BidiClass>, x: seq<int>, runs: seq<LevelRun>, sqs: seq<RunSequence>,
                     s: nat, p: nat, t: nat, q: nat)
    requires SequencesOf(text, x, runs, sqs) && s < |sqs| && t < |sqs| && p < |sqs[s].runs| && q < |sqs[t].runs|
    requires sqs[s].runs[p] == sqs[t].runs[q]
    ensures s == t && p == q
  {
    assert Linked(text, x, runs, sqs[s], s) && Linked(text, x, runs, sqs[t], t);
    SequenceAscending(text, x, runs, sqs, s);
  }

  /** Where a sequence goes on from a run that ends with an initiator: to run `c`, or nowhere. */
  lemma NextTaken(text: seq<BidiClass>, x: seq<int>, runs: seq<LevelRun>, sqs: seq<RunSequence>, s: nat, p: nat)
    returns (c: nat)
    requires SequencesOf(text, x, runs, sqs) && s < |sqs| && p < |sqs[s].runs|
    requires sqs[s].runs[p] < |runs| && EndsWithInit(text, runs[sqs[s].runs[p]])
    ensures sqs[s].runs[p] < c <= |runs|
    ensures TakenBetween(text, x, runs, sqs[s].level, s, sqs[s].runs[p] + 1, c)
    ensures c < |runs| ==> runs[c].level == sqs[s].level && runs[c].seqId == s + 1
  {
    var sq := sqs[s];
    assert Linked(text, x, runs, sq, s) && Finished(text, x, runs, sq, s);
    if p + 1 < |sq.runs| {
      c := sq.runs[p + 1];
      assert sq.runs[p] < sq.runs[p + 1];
    } else {
      c := |runs|;
    }
  }

  /** What the matched pairs of a text and the runs of its sequences have in common. */
  ghost predicate SequencedText(text: seq<BidiClass>, x: seq<int>, runs: seq<LevelRun>, upto: nat,
                              sqs: seq<RunSequence>)
  {
    IsolateLevels(text, x) && LevelRunsOf(text, x, runs, upto) && SequencesOf(text, x, runs, sqs)
  }

  /** A run that could have gone on with sequence `s` is not in a later one. */
  lemma NotLater(text: seq<BidiClass>, x: seq<int>, runs: seq<LevelRun>, level: int, s: nat, a: nat, b: nat, c: nat)
    requires WellPlaced(text, x, runs) && TakenBetween(text, x, runs, level, s, a + 1, c) && a < c <= |runs|
    requires a < b <= c && b < |runs| && runs[b].level == level && StartsWithPdi(text, x, runs[b])
    requires c < |runs| ==> runs[c].seqId == s + 1
    ensures runs[b].seqId <= s + 1
  {
  }

  /** A sequence does not skip the run of a matched PDI. */
  lemma NotSkipped(text: seq<BidiClass>, x: seq<int>, runs: seq<LevelRun>, upto: nat, i: nat, j: nat,
                   a: nat, b: nat, c: nat)
    requires IsolatesLift(text, x) && LevelRunsOf(text, x, runs, upto)
    requires Matches(text, i, j) && a < b < |runs| && runs[a].end == i + 1 && StartsAt(x, runs[b], j)
    requires a < c <= |runs| && (c < |runs| ==> runs[c].level == x[i])
    ensures b <= c
  {
    if c < b {
      RunsBetweenHigher(text, x, runs, upto, i, j, a, b, c);
    }
  }

  /** The run of a matched PDI is in no later sequence than that of its initiator. */
  lemma PdiNotLater(text: seq<BidiClass>, x: seq<int>, runs: seq<LevelRun>, upto: nat, sqs: seq<RunSequence>,
                    i: nat, j: nat, a: nat, b: nat)
    requires IsolatesLift(text, x) && SequencedText(text, x, runs, upto, sqs)
    requires Matches(text, i, j) && a < b < |runs| && runs[a].end == i + 1 && StartsAt(x, runs[b], j)
    requires runs[a].level == runs[b].level == x[i] && EndsWithInit(text, runs[a]) && StartsWithPdi(text, x, runs[b])
    ensures runs[b].seqId <= runs[a].seqId
  {
    var s, p := PositionOf(text, x, runs, sqs, a);
    var c := NextTaken(text, x, runs, sqs, s, p);
    NotSkipped(text, x, runs, upto, i, j, a, b, c);
    NotLater(text, x, runs, x[i], s, a, b, c);
  }

  /** In sequence `s` the run that ends with the initiator `i` is followed by the run that starts with the
      PDI `j`. */
  ghost predicate JoinedAt(x: seq<int>, runs: seq<LevelRun>, sqs: seq<RunSequence>, s: nat, p: nat, i: int, j: int) {
    && s < |sqs| && p + 1 < |sqs[s].runs| && sqs[s].runs[p] < |runs| && sqs[s].runs[p + 1] < |runs|
    && runs[sqs[s].runs[p]].end == i + 1 && StartsAt(x, runs[sqs[s].runs[p + 1]], j)
  }

  lemma SameEnds(text: seq<BidiClass>, x: seq<int>, runs: seq<LevelRun>, upto: nat, a: nat, b: nat)
    requires Tiles(text, x, runs, upto) && a < |runs| && b < |runs| && runs[a].end == runs[b].end
    ensures a == b
  {
    RunBounds(text, x, runs, upto, Min(a, b), Max(a, b));
    RunBounds(text, x, runs, upto, Max(a, b), Max(a, b));
  }

  lemma JoinedFromOne(text: seq<BidiClass>, x: seq<int>, runs: seq<LevelRun>, upto: nat, sqs: seq<RunSequence>,
                      s: nat, p: nat, i: nat, j: nat, t: nat, q: nat, k: nat)
    requires Tiles(text, x, runs, upto)
    requires JoinedAt(x, runs, sqs, s, p, i, j) && JoinedAt(x, runs, sqs, t, q, i, k)
    ensures sqs[s].runs[p] == sqs[t].runs[q]
  {
    SameEnds(text, x, runs, upto, sqs[s].runs[p], sqs[t].runs[q]);
  }

  /** Two junctions from one run are one. */
  lemma OneJunction(text: seq<BidiClass>, x: seq<int>, runs: seq<LevelRun>, upto: nat, sqs: seq<RunSequence>,
                    s: nat, p: nat, i: nat, j: nat, t: nat, q: nat, k: nat)
    requires Tiles(text, x, runs, upto) && SequencesOf(text, x, runs, sqs)
    requires JoinedAt(x, runs, sqs, s, p, i, j) && JoinedAt(x, runs, sqs, t, q, i, k)
    ensures s == t && p == q && j == k
  {
    JoinedFromOne(text, x, runs, upto, sqs, s, p, i, j, t, q, k);
    SamePosition(text, x, runs, sqs, s, p, t, q);
    SameStart(x, runs[sqs[s].runs[p + 1]], j, k);
  }

  lemma SameStart(x: seq<int>, run: LevelRun, j: int, k: int)
    requires StartsAt(x, run, j) && StartsAt(x, run, k)
    ensures j == k
  {
  }

  /** The runs of a matched pair, the second in no later sequence than the first. */
  lemma PairRuns(text: seq<BidiClass>, x: seq<int>, runs: seq<LevelRun>, upto: nat, sqs: seq<RunSequence>,
                 i: nat, j: nat) returns (a: nat, b: nat)
    requires IsolatesLift(text, x) && SequencedText(text, x, runs, upto, sqs) && Matches(text, i, j)
    ensures a < b < |runs| && runs[a].end == i + 1 && StartsAt(x, runs[b], j) && runs[b].level == x[i]
    ensures 1 <= runs[b].seqId <= runs[a].seqId
  {
    a := InitiatorEndsRun(text, x, runs, upto, i);
    b := PdiStartsRun(text, x, runs, upto, i, j);
    InOrder(text, x, runs, upto, a, b, i, j);
    PdiNotLater(text, x, runs, upto, sqs, i, j, a, b);
  }

  lemma InOrder(text: seq<BidiClass>, x: seq<int>, runs: seq<LevelRun>, upto: nat, a: nat, b: nat, i: nat, j: nat)
    requires Tiles(text, x, runs, upto) && a < |runs| && b < |runs| && i < j
    requires runs[a].end == i + 1 && runs[b].start <= j < runs[b].end
    ensures a < b || (a == b && j <= i)
  {
    RunBounds(text, x, runs, upto, Min(a, b), Max(a, b));
  }

  lemma NotFirstRun(text: seq<BidiClass>, x: seq<int>, runs: seq<LevelRun>, sqs: seq<RunSequence>, a: nat, b: nat,
                    s: nat, q: nat)
    requires SequencesOf(text, x, runs, sqs) && a < b < |runs| && runs[b].seqId <= runs[a].seqId
    requires s < |sqs| && q < |sqs[s].runs| && sqs[s].runs[q] == b && runs[b].seqId == s + 1
    ensures 0 < q
  {
    assert Linked(text, x, runs, sqs[s], s);
    var r := runs[a];
  }

  /** The run of a matched PDI has a predecessor in its sequence. */
  lemma PdiHasPredecessor(text: seq<BidiClass>, x: seq<int>, runs: seq<LevelRun>, upto: nat,
                          sqs: seq<RunSequence>, i: nat, j: nat) returns (s: nat, p: nat, h: nat)
    requires IsolatesLift(text, x) && SequencedText(text, x, runs, upto, sqs) && Matches(text, i, j)
    ensures JoinedAt(x, runs, sqs, s, p, h, j) && h < |text| && text[h].IsIsoInit() && h < j && x[h] == x[j]
    ensures h <= i
  {
    var a, b := PairRuns(text, x, runs, upto, sqs, i, j);
    var q;
    s, q := PositionOf(text, x, runs, sqs, b);
    NotFirstRun(text, x, runs, sqs, a, b, s, q);
    p := q - 1;
    h := PredecessorEnds(text, x, runs, upto, sqs, s, p);
    NotAfter(text, x, runs, upto, i, j, a, b, sqs[s].runs[p], h);
  }

  lemma NotAfter(text: seq<BidiClass>, x: seq<int>, runs: seq<LevelRun>, upto: nat, i: nat, j: nat,
                 a: nat, b: nat, c: nat, h: nat)
    requires IsolatesLift(text, x) && LevelRunsOf(text, x, runs, upto) && Matches(text, i, j)
    requires a < b < |runs| && runs[a].end == i + 1 && StartsAt(x, runs[b], j)
    requires c < b && runs[c].level == x[i] && runs[c].end == h + 1
    ensures h <= i
  {
    if a < c {
      RunsBetweenHigher(text, x, runs, upto, i, j, a, b, c);
    } else {
      RunBounds(text, x, runs, upto, c, a);
    }
  }

  lemma LinkedPair(text: seq<BidiClass>, x: seq<int>, runs: seq<LevelRun>, sqs: seq<RunSequence>, s: nat, p: nat,
                   c: nat, d: nat)
    requires SequencesOf(text, x, runs, sqs) && s < |sqs| && p + 1 < |sqs[s].runs|
    requires c == sqs[s].runs[p] && d == sqs[s].runs[p + 1]
    ensures c < d < |runs| && runs[c].level == sqs[s].level == runs[d].level
    ensures EndsWithInit(text, runs[c]) && StartsWithPdi(text, x, runs[d])
  {
    assert Linked(text, x, runs, sqs[s], s);
  }

  lemma PredecessorEnds(text: seq<BidiClass>, x: seq<int>, runs: seq<LevelRun>, upto: nat, sqs: seq<RunSequence>,
                        s: nat, p: nat) returns (h: nat)
    requires SequencedText(text, x, runs, upto, sqs) && s < |sqs| && p + 1 < |sqs[s].runs|
    ensures sqs[s].runs[p] < sqs[s].runs[p + 1] < |runs|
    ensures runs[sqs[s].runs[p]].end == h + 1 <= |text| && text[h].IsIsoInit()
    ensures x[h] == runs[sqs[s].runs[p]].level == sqs[s].level == runs[sqs[s].runs[p + 1]].level
    ensures h < runs[sqs[s].runs[p + 1]].start
    ensures StartsWithPdi(text, x, runs[sqs[s].runs[p + 1]])
  {
    var c, d := sqs[s].runs[p], sqs[s].runs[p + 1];
    LinkedPair(text, x, runs, sqs, s, p, c, d);
    RunBounds(text, x, runs, upto, c, d);
    h := EndOfRun(text, x, runs, upto, c);
  }

  lemma EndOfRun(text: seq<BidiClass>, x: seq<int>, runs: seq<LevelRun>, upto: nat, c: nat) returns (h: nat)
    requires IsolateLevels(text, x) && LevelRunsOf(text, x, runs, upto) && c < |runs|
    requires runs[c].start < runs[c].end <= |text| && EndsWithInit(text, runs[c])
    ensures runs[c].end == h + 1 && text[h].IsIsoInit() && x[h] == runs[c].level
  {
    h := runs[c].end - 1;
    assert Visible(x[h]);
    assert IsSpan(text, x, runs[c].start, runs[c].end, runs[c].level);
  }

  /** A matching pair is a junction. */
  lemma {:induction false} MatchIsJoined(text: seq<BidiClass>, x: seq<int>, runs: seq<LevelRun>, upto: nat,
                                         sqs: seq<RunSequence>, i: nat, j: nat) returns (s: nat, p: nat)
    requires IsolatesLift(text, x) && SequencedText(text, x, runs, upto, sqs) && Matches(text, i, j)
    ensures JoinedAt(x, runs, sqs, s, p, i, j)
    decreases j
  {
    var h;
    s, p, h := PdiHasPredecessor(text, x, runs, upto, sqs, i, j);
    if h < i {
      assert x[h] == x[i];
      NotOpenAt(text, x, h, i, j);
      var k :| h < k <= i && Matches(text, h, k);
      var t, q := MatchIsJoined(text, x, runs, upto, sqs, h, k);
      OneJunction(text, x, runs, upto, sqs, s, p, h, j, t, q, k);
    }
  }

  /** The last visible character from `i` on before `j`. */
  lemma {:induction false} LastVisible(x: seq<int>, i: nat, j: nat) returns (v: nat)
    requires i < j <= |x| && Visible(x[i])
    ensures i <= v < j && Visible(x[v]) && forall k {:trigger x[k]} :: v < k < j ==> !Visible(x[k])
    decreases j
  {
    v := j - 1;
    if !Visible(x[j - 1]) {
      v := LastVisible(x, i, j - 1);
    }
  }

  /** An initiator and a PDI with nothing visible between them match. */
  lemma AdjacentMatch(text: seq<BidiClass>, x: seq<int>, v: nat, j: nat)
    requires IsolateLevels(text, x) && v < j < |text| && text[v].IsIsoInit() && text[j].PopDirectionalIsolate?
    requires forall k {:trigger x[k]} :: v < k < j ==> !Visible(x[k])
    ensures Matches(text, v, j)
  {
    forall k {:trigger text[k]} | v + 1 <= k < j ensures text[k].IsRemovedByX9() {
      assert !Visible(x[k]);
    }
    RemovedNet(text, v + 1, j);
  }

  /** A PDI at the start of a run, with a visible character of its level right before it, closes an isolate
      that starts there. */
  lemma StartFollowsInitiator(text: seq<BidiClass>, x: seq<int>, runs: seq<LevelRun>, upto: nat, d: nat,
                              v: nat, j: nat)
    requires IsolateLevels(text, x) && LevelRunsOf(text, x, runs, upto) && d < |runs| && StartsAt(x, runs[d], j)
    requires LevelNeighbours(x, v, j) && text[j].PopDirectionalIsolate?
    ensures Matches(text, v, j)
  {
    var r := SplitIff(text, x, runs, upto, v, j);
    if text[v].IsIsoInit() {
      AdjacentMatch(text, x, v, j);
    } else {
      StartsNoRun(text, x, runs, upto, r, v, j);
    }
  }

  /** A junction: what it says of its ends. */
  lemma JunctionEnds(text: seq<BidiClass>, x: seq<int>, runs: seq<LevelRun>, upto: nat, sqs: seq<RunSequence>,
                     s: nat, p: nat, i: int, j: int)
    requires SequencedText(text, x, runs, upto, sqs) && JoinedAt(x, runs, sqs, s, p, i, j)
    ensures 0 <= i < j < |text| && text[i].IsIsoInit() && text[j].PopDirectionalIsolate? && x[i] == x[j]
    ensures Visible(x[i])
  {
    var h := PredecessorEnds(text, x, runs, upto, sqs, s, p);
    var d := sqs[s].runs[p + 1];
    var m := SignificantAt(text, x, runs[d].start, runs[d].end);
    SameStart(x, runs[d], m, j);
    assert IsSpan(text, x, runs[d].start, runs[d].end, runs[d].level);
  }

  lemma UnmatchedIsFlat(text: seq<BidiClass>, x: seq<int>, i: nat, v: nat, j: nat)
    requires IsolatesLift(text, x) && i <= v < j < |text| && text[i].IsIsoInit() && !HasMatch(text, i)
    requires Visible(x[v]) && x[i] == x[j] && text[j].PopDirectionalIsolate?
    ensures x[v] == x[j] && NoPairAfter(text, i)
  {
    assert Opens(text, i, j) && (i < v ==> Opens(text, i, v));
    assert Visible(x[j]) && text[i].IsIsoInit() && !text[v].ParagraphSeparator?;
  }

  lemma StartHasMatch(text: seq<BidiClass>, x: seq<int>, runs: seq<LevelRun>, upto: nat, d: nat, i: nat, j: nat)
    requires IsolatesLift(text, x) && LevelRunsOf(text, x, runs, upto) && d < |runs| && StartsAt(x, runs[d], j)
    requires i < j && text[i].IsIsoInit() && text[j].PopDirectionalIsolate? && Visible(x[i]) && x[i] == x[j]
    ensures HasMatch(text, i)
  {
    var v := LastVisible(x, i, j);
    if !HasMatch(text, i) {
      UnmatchedIsFlat(text, x, i, v, j);
      StartFollowsInitiator(text, x, runs, upto, d, v, j);
    }
  }

  /** Nothing is joined to an initiator without a match. */
  lemma JoinedHasMatch(text: seq<BidiClass>, x: seq<int>, runs: seq<LevelRun>, upto: nat,
                       sqs: seq<RunSequence>, s: nat, p: nat, i: nat, j: nat)
    requires IsolatesLift(text, x) && SequencedText(text, x, runs, upto, sqs)
    requires JoinedAt(x, runs, sqs, s, p, i, j)
    ensures HasMatch(text, i)
  {
    JunctionEnds(text, x, runs, upto, sqs, s, p, i, j);
    StartHasMatch(text, x, runs, upto, sqs[s].runs[p + 1], i, j);
  }

  /** A junction is a matching pair. */
  lemma JoinedIsMatch(text: seq<BidiClass>, x: seq<int>, runs: seq<LevelRun>, upto: nat, sqs: seq<RunSequence>,
                      s: nat, p: nat, i: nat, j: nat)
    requires IsolatesLift(text, x) && SequencedText(text, x, runs, upto, sqs)
    requires JoinedAt(x, runs, sqs, s, p, i, j)
    ensures Matches(text, i, j)
  {
    JoinedHasMatch(text, x, runs, upto, sqs, s, p, i, j);
    var k :| Matches(text, i, k);
    var t, q := MatchIsJoined(text, x, runs, upto, sqs, i, k);
    OneJunction(text, x, runs, upto, sqs, s, p, i, j, t, q, k);
  }

  ghost predicate IsJoined(x: seq<int>, runs: seq<LevelRun>, sqs: seq<RunSequence>, i: nat, j: nat) {
    exists s: nat, p: nat {:trigger JoinedAt(x, runs, sqs, s, p, i, j)} :: JoinedAt(x, runs, sqs, s, p, i, j)
  }

  /** The runs of a sequence follow each other exactly from an isolate initiator to its matching PDI. */
  ghost predicate JunctionsMatch(text: seq<BidiClass>, x: seq<int>, runs: seq<LevelRun>, sqs: seq<RunSequence>) {
    forall i: nat, j: nat {:trigger IsJoined(x, runs, sqs, i, j)} ::
      Matches(text, i, j) <==> IsJoined(x, runs, sqs, i, j)
  }

  lemma LiftingJunctionsMatch(text: seq<BidiClass>, x: seq<int>, runs: seq<LevelRun>, upto: nat, sqs: seq<RunSequence>)
    requires IsolatesLift(text, x) && SequencedText(text, x, runs, upto, sqs)
    ensures JunctionsMatch(text, x, runs, sqs)
  {
    forall i: nat, j: nat {:trigger IsJoined(x, runs, sqs, i, j)}
      ensures Matches(text, i, j) <==> IsJoined(x, runs, sqs, i, j)
    {
      if Matches(text, i, j) {
        var s, p := MatchIsJoined(text, x, runs, upto, sqs, i, j);
      }
      if IsJoined(x, runs, sqs, i, j) {
        var s: nat, p: nat :| JoinedAt(x, runs, sqs, s, p, i, j);
        JoinedIsMatch(text, x, runs, upto, sqs, s, p, i, j);
      }
    }
  }

  // ---------------------------------------------------------------- and only then

  /** If the junctions match, a matched isolate that does not lift its content has nothing visible in it. */
  lemma JoinedIsEmpty(text: seq<BidiClass>, x: seq<int>, runs: seq<LevelRun>, upto: nat, d: nat, i: nat, j: nat,
                      k: nat)
    requires IsolateLevels(text, x) && LevelRunsOf(text, x, runs, upto) && IsFlat(text, x, i)
    requires Matches(text, i, j) && d < |runs| && StartsAt(x, runs[d], j) && i < k < j
    ensures !Visible(x[k])
  {
    if Visible(x[k]) {
      var v := LastVisible(x, k, j);
      MatchOpens(text, i, j, v);
      assert !text[v].ParagraphSeparator? && x[v] == x[j];
      StartFollowsInitiator(text, x, runs, upto, d, v, j);
      InnerHasMatch(text, i, j, v);
    }
  }

  /** Two neighbours in an ascending list with `a` between them. */
  lemma {:induction false} Crossing(s: seq<nat>, a: nat, q: nat) returns (u: nat)
    requires q < |s| && s[0] < a < s[q] && a !in s
    ensures u + 1 < |s| && s[u] < a < s[u + 1]
    decreases q
  {
    if s[q - 1] < a {
      u := q - 1;
    } else {
      assert s[q - 1] != a;
      u := Crossing(s, a, q - 1);
    }
  }

  /** A sequence before that of run `a` which goes past it has a junction across it. */
  lemma JunctionAcross(text: seq<BidiClass>, x: seq<int>, runs: seq<LevelRun>, upto: nat, sqs: seq<RunSequence>,
                       a: nat, s: nat, t: nat, q: nat, i: nat) returns (u: nat, g: nat, m: nat)
    requires SequencedText(text, x, runs, upto, sqs) && a < |runs| && runs[a].seqId == s + 1 && runs[a].end == i + 1
    requires t < s < |sqs| && q < |sqs[t].runs| && a < sqs[t].runs[q]
    ensures JoinedAt(x, runs, sqs, t, u, g, m) && g < i < m
  {
    var r := sqs[t].runs;
    EarlierStarts(text, x, runs, sqs, a, s, t);
    u := Crossing(r, a, q);
    g, m := JunctionAt(text, x, runs, upto, sqs, t, u);
    RunBounds(text, x, runs, upto, r[u], a);
    RunBounds(text, x, runs, upto, a, r[u + 1]);
  }

  lemma EarlierStarts(text: seq<BidiClass>, x: seq<int>, runs: seq<LevelRun>, sqs: seq<RunSequence>, a: nat, s: nat,
                      t: nat)
    requires SequencesOf(text, x, runs, sqs) && a < |runs| && runs[a].seqId == s + 1 && t < s < |sqs|
    ensures sqs[t].runs != [] && sqs[t].runs[0] < a && a !in sqs[t].runs
  {
    assert Linked(text, x, runs, sqs[t], t);
  }

  lemma JunctionAt(text: seq<BidiClass>, x: seq<int>, runs: seq<LevelRun>, upto: nat, sqs: seq<RunSequence>,
                   s: nat, p: nat) returns (i: nat, j: nat)
    requires SequencedText(text, x, runs, upto, sqs) && s < |sqs| && p + 1 < |sqs[s].runs|
    ensures sqs[s].runs[p] < |runs| && runs[sqs[s].runs[p]].end == i + 1
    ensures JoinedAt(x, runs, sqs, s, p, i, j)
  {
    i := PredecessorEnds(text, x, runs, upto, sqs, s, p);
    var d := sqs[s].runs[p + 1];
    j := SignificantAt(text, x, runs[d].start, runs[d].end);
  }

  lemma JoinedMatches(text: seq<BidiClass>, x: seq<int>, runs: seq<LevelRun>, sqs: seq<RunSequence>,
                      s: nat, p: nat, i: nat, j: nat)
    requires JunctionsMatch(text, x, runs, sqs) && JoinedAt(x, runs, sqs, s, p, i, j)
    ensures Matches(text, i, j)
  {
    assert IsJoined(x, runs, sqs, i, j);
  }

  lemma EndTakesAll(text: seq<BidiClass>, x: seq<int>, runs: seq<LevelRun>, sqs: seq<RunSequence>, s: nat, p: nat,
                    d: nat)
    requires SequencesOf(text, x, runs, sqs) && s < |sqs| && p + 1 == |sqs[s].runs| && sqs[s].runs[p] < d < |runs|
    requires EndsWithInit(text, runs[sqs[s].runs[p]]) && runs[d].level == sqs[s].level
    requires StartsWithPdi(text, x, runs[d])
    ensures 1 <= runs[d].seqId <= s
  {
    assert Finished(text, x, runs, sqs[s], s);
    assert runs[sqs[s].runs[p]].end > 0;
  }

  /** When something is joined after an initiator that is still open at its level, something is joined to
      it, or across it. */
  lemma JunctionAtOrAcross(text: seq<BidiClass>, x: seq<int>, runs: seq<LevelRun>, upto: nat,
                           sqs: seq<RunSequence>, i: nat, h: nat, j: nat, t: nat, q: nat)
    returns (s: nat, p: nat, g: nat, m: nat)
    requires SequencedText(text, x, runs, upto, sqs) && JoinedAt(x, runs, sqs, t, q, h, j)
    requires i < h < j && text[i].IsIsoInit() && text[j].PopDirectionalIsolate?
    requires Opens(text, i, j) && IsFlat(text, x, i)
    ensures JoinedAt(x, runs, sqs, s, p, g, m) && (g == i || g < i < m)
  {
    var a := InitiatorEndsRun(text, x, runs, upto, i);
    s, p := PositionOf(text, x, runs, sqs, a);
    if p + 1 < |sqs[s].runs| {
      g, m := JunctionAt(text, x, runs, upto, sqs, s, p);
    } else {
      p, g, m := PassesEarlier(text, x, runs, upto, sqs, i, h, j, a, s, p, t, q);
      s := t;
    }
  }

  lemma UnmatchedOpens(text: seq<BidiClass>, i: nat, j: nat)
    requires i < j < |text| && text[i].IsIsoInit() && !HasMatch(text, i)
    ensures Opens(text, i, j)
  {
  }

  /** If the junctions match and isolates after an unmatched one at its level are matched, it is matched after all. */
  lemma PairAfterMatches(text: seq<BidiClass>, x: seq<int>, runs: seq<LevelRun>, upto: nat, sqs: seq<RunSequence>,
                         i: nat, h: nat, j: nat)
    requires SequencedText(text, x, runs, upto, sqs) && JunctionsMatch(text, x, runs, sqs)
    requires i < h && Matches(text, h, j) && text[i].IsIsoInit() && IsFlat(text, x, i)
    ensures HasMatch(text, i)
  {
    if !HasMatch(text, i) {
      UnmatchedOpens(text, i, j);
      var t, q := MatchedJoins(text, x, runs, sqs, h, j);
      var s, p, g, m := JunctionAtOrAcross(text, x, runs, upto, sqs, i, h, j, t, q);
      JoinedMatches(text, x, runs, sqs, s, p, g, m);
      if g < i {
        InnerHasMatch(text, g, m, i);
      }
    }
  }

  lemma MatchedJoins(text: seq<BidiClass>, x: seq<int>, runs: seq<LevelRun>, sqs: seq<RunSequence>, i: nat, j: nat)
    returns (s: nat, p: nat)
    requires JunctionsMatch(text, x, runs, sqs) && Matches(text, i, j)
    ensures JoinedAt(x, runs, sqs, s, p, i, j)
  {
    assert IsJoined(x, runs, sqs, i, j);
    s, p :| JoinedAt(x, runs, sqs, s, p, i, j);
  }

  /** The pair after it is in an earlier sequence, which passes the initiator with a junction. */
  lemma PassesEarlier(text: seq<BidiClass>, x: seq<int>, runs: seq<LevelRun>, upto: nat, sqs: seq<RunSequence>,
                      i: nat, h: nat, j: nat, a: nat, s: nat, p: nat, t: nat, q: nat)
    returns (u: nat, g: nat, m: nat)
    requires SequencedText(text, x, runs, upto, sqs) && JoinedAt(x, runs, sqs, t, q, h, j)
    requires i < h < j && Opens(text, i, j) && IsFlat(text, x, i) && text[j].PopDirectionalIsolate?
    requires s < |sqs| && p + 1 == |sqs[s].runs| && sqs[s].runs[p] == a < |runs| && runs[a].seqId == s + 1
    requires runs[a].end == i + 1 && runs[a].level == x[i] == sqs[s].level && EndsWithInit(text, runs[a])
    ensures JoinedAt(x, runs, sqs, t, u, g, m) && g < i < m
  {
    var c, d := sqs[t].runs[q], sqs[t].runs[q + 1];
    JunctionEnds(text, x, runs, upto, sqs, t, q, h, j);
    LinkedPair(text, x, runs, sqs, t, q, c, d);
    RunBounds(text, x, runs, upto, Min(a, c), Max(a, c));
    RunBounds(text, x, runs, upto, c, c);
    LevelOfStart(text, x, runs, upto, d, j);
    EndTakesAll(text, x, runs, sqs, s, p, d);
    u, g, m := JunctionAcross(text, x, runs, upto, sqs, a, s, t, q, i);
  }

  lemma LevelOfStart(text: seq<BidiClass>, x: seq<int>, runs: seq<LevelRun>, upto: nat, d: nat, j: nat)
    requires LevelRunsOf(text, x, runs, upto) && d < |runs| && StartsAt(x, runs[d], j)
    ensures runs[d].level == x[j]
  {
    assert IsSpan(text, x, runs[d].start, runs[d].end, runs[d].level);
  }

  lemma MeetingIsHarmless(text: seq<BidiClass>, x: seq<int>, runs: seq<LevelRun>, upto: nat, sqs: seq<RunSequence>,
                          i: nat)
    requires SequencedText(text, x, runs, upto, sqs) && JunctionsMatch(text, x, runs, sqs)
    requires i < |text| && text[i].IsIsoInit() && IsFlat(text, x, i)
    ensures IsHarmless(text, i)
  {
    forall j, k {:trigger Matches(text, i, j), text[k]} | Matches(text, i, j) && i < k < j
      ensures text[k].IsRemovedByX9()
    {
      var s, p := MatchedJoins(text, x, runs, sqs, i, j);
      JoinedIsEmpty(text, x, runs, upto, sqs[s].runs[p + 1], i, j, k);
    }
    forall h, j {:trigger Matches(text, h, j)} | i < h && Matches(text, h, j) ensures HasMatch(text, i) {
      PairAfterMatches(text, x, runs, upto, sqs, i, h, j);
    }
  }

  // ---------------------------------------------------------------- the condition on texts

  /** Every isolate that overflows is harmless. */
  ghost predicate OverflowIsHarmless(base: int, text: seq<BidiClass>) {
    forall i {:trigger text[i]} :: 0 <= i < |text| && text[i].IsIsoInit() && !Stacked(base, text, i) ==>
      IsHarmless(text, i)
  }

  /** In a text without overrides and without refused isolates the runs of the code are joined exactly at the
      matching pairs if and only if every isolate that overflows has nothing visible in it, or is never closed
      and followed by no isolate that is. */
  lemma JunctionsMatchIff(base: int, text: seq<BidiClass>, runs: seq<LevelRun>, upto: nat, sqs: seq<RunSequence>)
    requires 0 <= base <= 1 && Accepted(base, text) && PlainControls(text)
    requires Sequencing(base, ClassesOf(base, text), LevelsOf(base, text), runs, upto, sqs)
    ensures JunctionsMatch(text, LevelsOf(base, text), runs, sqs) <==> OverflowIsHarmless(base, text)
  {
    var x := LevelsOf(base, text);
    ClassesKept(base, text);
    TextLevels(base, text);
    if OverflowIsHarmless(base, text) {
      forall i {:trigger text[i]} | 0 <= i < |text| && text[i].IsIsoInit()
        ensures Lifts(text, x, i) || IsHarmless(text, i)
      {
        InitiatorLevels(base, text, x, i);
      }
      LiftingJunctionsMatch(text, x, runs, upto, sqs);
    }
    if JunctionsMatch(text, x, runs, sqs) {
      forall i {:trigger text[i]} | 0 <= i < |text| && text[i].IsIsoInit() && !Stacked(base, text, i)
        ensures IsHarmless(text, i)
      {
        InitiatorLevels(base, text, x, i);
        MeetingIsHarmless(text, x, runs, upto, sqs, i);
      }
    }
  }

  // ---------------------------------------------------------------- an isolate that does harm

  const FULL := MAX_DEPTH - 1

  /** An isolate around a number, inside 124 embeddings: it overflows. */
  function OverflowText(): seq<BidiClass> {
    Nesting(FULL) + [LeftToRightIsolate, EuropeanNumber, PopDirectionalIsolate]
  }

  lemma OverflowChars(text: seq<BidiClass>)
    requires text == OverflowText()
    ensures |text| == FULL + 3 && text[FULL] == LeftToRightIsolate && text[FULL + 1] == EuropeanNumber
    ensures text[FULL + 2] == PopDirectionalIsolate && Matches(text, FULL, FULL + 2)
  {
    assert text[FULL + 1..FULL + 2] == [EuropeanNumber] && [EuropeanNumber][..0] == [];
  }

  lemma OverflowIsPlain(text: seq<BidiClass>)
    requires text == OverflowText()
    ensures PlainControls(text)
  {
    forall k {:trigger text[k]} | 0 <= k < |text|
      ensures !text[k].RightToLeftOverride? && !text[k].LeftToRightOverride? && !text[k].ParagraphSeparator?
    {
      assert k < FULL ==> text[k] == Nesting(FULL)[k];
    }
  }

  lemma OverflowSymbols(text: seq<BidiClass>)
    requires text == OverflowText()
    ensures Symbols(text) == text && Symbols(text)[..FULL] == Nesting(FULL)
  {
    forall k {:trigger Symbols(text)[k]} | 0 <= k < |text| ensures Symbols(text)[k] == text[k] {
      assert k < FULL ==> text[k] == Nesting(FULL)[k];
    }
  }

  lemma {:induction false} NestingAccepted(s: XState, n: nat)
    ensures AcceptsIsolates(s, Nesting(n))
    decreases n
  {
    if 0 < n {
      assert Nesting(n)[..n - 1] == Nesting(n - 1);
      NestingAccepted(s, n - 1);
    }
  }

  /** The full stack has no room above 124 for a left-to-right isolate. */
  lemma FullOverflows(s: XState)
    requires s == Active(Chain(FULL + 1), 0, 0, 0)
    ensures s.Nonempty() && Asked(s, LeftToRightIsolate).None?
  {
  }

  /** An isolate around a number over a full stack refuses nothing. */
  lemma FullAccepts(s: XState, pre: seq<BidiClass>, syms: seq<BidiClass>)
    requires AcceptsIsolates(s, pre) && Run(s, pre) == Active(Chain(FULL + 1), 0, 0, 0)
    requires syms == pre + [LeftToRightIsolate, EuropeanNumber, PopDirectionalIsolate]
    ensures AcceptsIsolates(s, syms)
  {
    FullOverflows(Run(s, pre));
    AcceptsNext(s, pre, LeftToRightIsolate);
    AcceptsNext(s, pre + [LeftToRightIsolate], EuropeanNumber);
    AcceptsNext(s, pre + [LeftToRightIsolate] + [EuropeanNumber], PopDirectionalIsolate);
    assert syms == pre + [LeftToRightIsolate] + [EuropeanNumber] + [PopDirectionalIsolate];
  }

  lemma OverflowAccepted(text: seq<BidiClass>)
    requires text == OverflowText()
    ensures Accepted(0, text) && |text| == FULL + 3 && !Stacked(0, text, FULL)
  {
    var s, pre := Initial(0), Nesting(FULL);
    OverflowSymbols(text);
    OverflowChars(text);
    NestingChain(FULL);
    NestingAccepted(s, FULL);
    FullAccepts(s, pre, Symbols(text));
    FullOverflows(Run(s, pre));
  }

  /** Nothing joins it to its PDI. */
  lemma OverflowIsNotJoined(text: seq<BidiClass>, runs: seq<LevelRun>, upto: nat, sqs: seq<RunSequence>)
    requires text == OverflowText()
    requires Sequencing(0, ClassesOf(0, text), LevelsOf(0, text), runs, upto, sqs)
    ensures Accepted(0, text) && PlainControls(text) && !JunctionsMatch(text, LevelsOf(0, text), runs, sqs)
  {
    OverflowChars(text);
    OverflowIsPlain(text);
    OverflowAccepted(text);
    assert !IsHarmless(text, FULL);
    JunctionsMatchIff(0, text, runs, upto, sqs);
  }
}
