/** Rule X10: level runs and isolating run sequences (`identify_runs`, `span_one_run`,
    `identify_isolating_run_sequences` and what follows it in `bidi/src/lib.rs`). */
module LevelRuns {
  import opened Options
  import opened BidiTypes

  datatype LevelRun = LevelRun(start: nat, end: nat, len: nat, seqId: nat, level: int,
                               sor: BidiClass, eor: BidiClass)

  datatype RunSequence = RunSequence(runs: seq<nat>, len: nat, level: int, sos: BidiClass, eos: BidiClass,
                                     indices: seq<nat>)

  // ---------------------------------------------------------------- level runs

  predicate VisibleInit(types: seq<BidiClass>, levels: seq<int>, k: int)
    requires 0 <= k < |levels| == |types|
  {
    Visible(levels[k]) && types[k].IsIsoInit()
  }

  /** All visible characters of `[start..end)` have level `level`, an isolate initiator can only be
      the last, and the stretch cannot be made longer.  Level -1 means nothing there is visible. */
  ghost predicate IsSpan(types: seq<BidiClass>, levels: seq<int>, start: int, end: int, level: int) {
    && |types| == |levels| && 0 <= start < end <= |types|
    && (forall k {:trigger levels[k]} :: start <= k < end ==> levels[k] == level || !Visible(levels[k]))
    && (Visible(level) ==> level in levels[start..end])
    && (forall k {:trigger VisibleInit(types, levels, k)} :: start <= k < end - 1 ==> !VisibleInit(types, levels, k))
    && (end == |types| || VisibleInit(types, levels, end - 1) ||
        (Visible(levels[end]) && Visible(level) && levels[end] != level))
  }

  method SpanOneRun(types: seq<BidiClass>, levels: seq<int>, start: nat) returns (spanLevel: int, len: nat)
    requires start < |types| == |levels|
    ensures 0 < len && IsSpan(types, levels, start, start + len, spanLevel)
  {
    spanLevel := NO_LEVEL;
    var isolateInitFound := false;
    var spanLen := 0;
    var idx := 0;
    while start + idx < |types|
      invariant 0 <= idx && start + idx <= |types|
      invariant spanLen == if idx == 0 then 0 else idx - 1
      invariant forall k {:trigger levels[k]} :: start <= k < start + idx ==>
        levels[k] == spanLevel || !Visible(levels[k])
      invariant Visible(spanLevel) ==> spanLevel in levels[start..start + idx]
      invariant !isolateInitFound
      invariant forall k {:trigger VisibleInit(types, levels, k)} :: start <= k < start + idx ==>
        !VisibleInit(types, levels, k)
    {
      var bc, level := types[start + idx], levels[start + idx];
      assert levels[start..start + idx + 1] == levels[start..start + idx] + [level];
      if Visible(level) {
        if bc.IsIsoInit() {
          isolateInitFound := true;
        }
        if !Visible(spanLevel) {
          spanLevel := level;
        } else if level != spanLevel {
          assert IsSpan(types, levels, start, start + spanLen + 1, spanLevel);
          break;
        }
      }
      assert isolateInitFound <==> VisibleInit(types, levels, start + idx);
      spanLen := idx;
      idx := idx + 1;
      if isolateInitFound {
        assert IsSpan(types, levels, start, start + spanLen + 1, spanLevel);
        break;
      }
    }
    len := spanLen + 1;
  }

  /** The runs follow each other without gaps from 0 to `upto`. */
  ghost predicate Tiles(types: seq<BidiClass>, levels: seq<int>, runs: seq<LevelRun>, upto: nat) {
    && |types| == |levels| && upto <= |types|
    && (forall r {:trigger runs[r]} :: 0 <= r < |runs| ==>
          && IsSpan(types, levels, runs[r].start, runs[r].end, runs[r].level)
          && Visible(runs[r].level) && runs[r].len == runs[r].end - runs[r].start)
    && (forall r, r' {:trigger runs[r], runs[r']} :: 0 <= r < r' < |runs| && r' == r + 1 ==>
          runs[r].end == runs[r'].start)
    && (if runs == [] then upto == 0 else runs[0].start == 0 && runs[|runs| - 1].end == upto)
  }

  /** The level runs of a paragraph; only characters removed at its end are in no run. */
  ghost predicate LevelRunsOf(types: seq<BidiClass>, levels: seq<int>, runs: seq<LevelRun>, upto: nat) {
    && Tiles(types, levels, runs, upto)
    && forall k {:trigger levels[k]} :: upto <= k < |levels| ==> !Visible(levels[k])
  }

  /** The spans below `idx` have been looked at; only one without visible characters, which is the
      last, makes no run. */
  ghost predicate Collected(types: seq<BidiClass>, levels: seq<int>, runs: seq<LevelRun>, upto: nat, idx: nat) {
    && Tiles(types, levels, runs, upto) && upto <= idx <= |types|
    && (upto < idx ==> idx == |types|)
    && (forall k {:trigger levels[k]} :: upto <= k < idx ==> !Visible(levels[k]))
    && (forall r {:trigger runs[r]} :: 0 <= r < |runs| ==> runs[r].seqId == 0)
  }

  lemma CollectSpan(types: seq<BidiClass>, levels: seq<int>, runs: seq<LevelRun>, idx: nat, run: LevelRun)
    requires Collected(types, levels, runs, idx, idx) && run.start == idx < |types|
    requires IsSpan(types, levels, idx, run.end, run.level) && run.len == run.end - idx && run.seqId == 0
    ensures if Visible(run.level) then Collected(types, levels, runs + [run], run.end, run.end)
            else Collected(types, levels, runs, idx, run.end)
  {
  }

  lemma {:induction false} RunBounds(types: seq<BidiClass>, levels: seq<int>, runs: seq<LevelRun>, upto: nat,
                                     r: nat, r': nat)
    requires Tiles(types, levels, runs, upto) && r <= r' < |runs|
    ensures runs[r].start < runs[r].end <= upto
    ensures r < r' ==> runs[r].end <= runs[r'].start
    decreases |runs| - r
  {
    if r + 1 < |runs| {
      RunBounds(types, levels, runs, upto, r + 1, if r == r' then r + 1 else r');
    }
  }

  /** Every visible character lies in exactly one run, and has its level. */
  lemma {:induction false} VisibleInOneRun(types: seq<BidiClass>, levels: seq<int>, runs: seq<LevelRun>,
                                           upto: nat, k: nat) returns (r: nat)
    requires LevelRunsOf(types, levels, runs, upto) && k < |levels| && Visible(levels[k])
    ensures r < |runs| && runs[r].start <= k < runs[r].end && runs[r].level == levels[k]
    ensures forall r' {:trigger runs[r']} :: 0 <= r' < |runs| && runs[r'].start <= k < runs[r'].end ==> r' == r
  {
    r := 0;
    while runs[r].end <= k
      invariant r < |runs| && runs[r].start <= k < upto
      decreases |runs| - r
    {
      RunBounds(types, levels, runs, upto, r, r);
      r := r + 1;
      assert runs[r - 1].end == runs[r].start;
    }
    forall r' {:trigger runs[r']} | 0 <= r' < |runs| && runs[r'].start <= k < runs[r'].end ensures r' == r {
      RunBounds(types, levels, runs, upto, Min(r, r'), Max(r, r'));
    }
  }

  // ---------------------------------------------------------------- sor and eor

  /** The level of the nearest visible character before `k`, or the base level. */
  function LevelBefore(levels: seq<int>, base: int, k: nat): int
    requires k <= |levels|
  {
    if k == 0 then base else if Visible(levels[k - 1]) then levels[k - 1] else LevelBefore(levels, base, k - 1)
  }

  function LevelAfter(levels: seq<int>, base: int, k: nat): int
    requires k <= |levels|
    decreases |levels| - k
  {
    if k == |levels| then base else if Visible(levels[k]) then levels[k] else LevelAfter(levels, base, k + 1)
  }

  function PriorRunLevel(runs: seq<LevelRun>, base: int, r: nat): int
    requires r < |runs|
  {
    if r == 0 then base else runs[r - 1].level
  }

  function NextRunLevel(runs: seq<LevelRun>, base: int, r: nat): int
    requires r < |runs|
  {
    if r + 1 == |runs| then base else runs[r + 1].level
  }

  lemma NonemptySlice(s: seq<int>, a: nat, b: nat, x: int)
    requires a <= b <= |s| && x in s[a..b]
    ensures a < b
    ensures s[a..b] == s[a..b - 1] + [s[b - 1]] == [s[a]] + s[a + 1..b]
  {
    var q :| 0 <= q < |s[a..b]| && s[a..b][q] == x;
  }

  lemma {:induction false} SpanLevelBefore(types: seq<BidiClass>, levels: seq<int>, base: int,
                                           start: nat, end: nat, level: int, k: nat)
    requires IsSpan(types, levels, start, end, level) && Visible(level) && start <= k <= end
    requires level in levels[start..k]
    ensures LevelBefore(levels, base, k) == level
    decreases k
  {
    NonemptySlice(levels, start, k, level);
    if !Visible(levels[k - 1]) {
      SpanLevelBefore(types, levels, base, start, end, level, k - 1);
    }
  }

  lemma {:induction false} SpanLevelAfter(types: seq<BidiClass>, levels: seq<int>, base: int,
                                          start: nat, end: nat, level: int, k: nat)
    requires IsSpan(types, levels, start, end, level) && Visible(level) && start <= k <= end
    requires level in levels[k..end]
    ensures LevelAfter(levels, base, k) == level
    decreases |levels| - k
  {
    NonemptySlice(levels, k, end, level);
    if !Visible(levels[k]) {
      SpanLevelAfter(types, levels, base, start, end, level, k + 1);
    }
  }

  lemma {:induction false} RemovedTail(levels: seq<int>, base: int, k: nat)
    requires k <= |levels| && forall j {:trigger levels[j]} :: k <= j < |levels| ==> !Visible(levels[j])
    ensures LevelAfter(levels, base, k) == base
    decreases |levels| - k
  {
    if k < |levels| {
      RemovedTail(levels, base, k + 1);
    }
  }

  /** The levels that `calculate_sor_eor` compares are those of the nearest visible characters
      around the run, or the base level at the ends of the paragraph. */
  lemma NeighbourLevels(types: seq<BidiClass>, levels: seq<int>, base: int, runs: seq<LevelRun>, upto: nat, r: nat)
    requires LevelRunsOf(types, levels, runs, upto) && r < |runs|
    ensures runs[r].end <= |levels|
    ensures PriorRunLevel(runs, base, r) == LevelBefore(levels, base, runs[r].start)
    ensures NextRunLevel(runs, base, r) == LevelAfter(levels, base, runs[r].end)
  {
    RunBounds(types, levels, runs, upto, r, r);
    if 0 < r {
      var p := runs[r - 1];
      assert p.end == runs[r].start;
      SpanLevelBefore(types, levels, base, p.start, p.end, p.level, p.end);
    }
    if r + 1 < |runs| {
      var n := runs[r + 1];
      assert runs[r].end == n.start;
      SpanLevelAfter(types, levels, base, n.start, n.end, n.level, n.start);
    } else {
      RemovedTail(levels, base, runs[r].end);
    }
  }

  function WithEnds(runs: seq<LevelRun>, base: int, r: nat): LevelRun
    requires r < |runs|
  {
    runs[r].(sor := LevelClass(Max(PriorRunLevel(runs, base, r), runs[r].level)),
             eor := LevelClass(Max(NextRunLevel(runs, base, r), runs[r].level)))
  }

  /** sor and eor as X10 defines them: the higher of the level of the run and that of the nearest
      visible character outside it. */
  ghost predicate HasEnds(levels: seq<int>, base: int, run: LevelRun) {
    && run.start <= |levels| && run.end <= |levels|
    && run.sor == LevelClass(Max(LevelBefore(levels, base, run.start), run.level))
    && run.eor == LevelClass(Max(LevelAfter(levels, base, run.end), run.level))
  }

  lemma EndsMeetX10(types: seq<BidiClass>, levels: seq<int>, base: int, before: seq<LevelRun>,
                    after: seq<LevelRun>, upto: nat)
    requires LevelRunsOf(types, levels, before, upto) && |after| == |before|
    requires forall r {:trigger after[r]} :: 0 <= r < |before| ==> after[r] == WithEnds(before, base, r)
    ensures LevelRunsOf(types, levels, after, upto)
    ensures forall r {:trigger after[r]} :: 0 <= r < |after| ==> HasEnds(levels, base, after[r])
  {
    forall r {:trigger after[r]} | 0 <= r < |after| ensures HasEnds(levels, base, after[r]) {
      RunBounds(types, levels, before, upto, r, r);
      NeighbourLevels(types, levels, base, before, upto, r);
    }
    TilesSame(types, levels, before, after, upto);
  }

  lemma TilesSame(types: seq<BidiClass>, levels: seq<int>, before: seq<LevelRun>, after: seq<LevelRun>, upto: nat)
    requires Tiles(types, levels, before, upto) && |after| == |before|
    requires forall r {:trigger after[r]} :: 0 <= r < |before| ==>
      && after[r].start == before[r].start && after[r].end == before[r].end
      && after[r].len == before[r].len && after[r].level == before[r].level
    ensures Tiles(types, levels, after, upto)
  {
  }

  // ---------------------------------------------------------------- isolating run sequences

  function FirstSignificant(types: seq<BidiClass>, levels: seq<int>, start: nat, end: nat): Option<BidiClass>
    requires end <= |levels| == |types|
    decreases end - start
  {
    if end <= start then None
    else if Visible(levels[start]) then Some(types[start])
    else FirstSignificant(types, levels, start + 1, end)
  }

  ghost predicate WellPlaced(types: seq<BidiClass>, levels: seq<int>, runs: seq<LevelRun>) {
    && |types| == |levels|
    && forall r {:trigger runs[r]} :: 0 <= r < |runs| ==> runs[r].start < runs[r].end <= |types|
  }

  predicate StartsWithPdi(types: seq<BidiClass>, levels: seq<int>, run: LevelRun)
    requires run.end <= |levels| == |types|
  {
    FirstSignificant(types, levels, run.start, run.end) == Some(PopDirectionalIsolate)
  }

  predicate EndsWithInit(types: seq<BidiClass>, run: LevelRun)
    requires run.start < run.end <= |types|
  {
    types[run.end - 1].IsIsoInit()
  }

  /** Every run from `lo` to `hi` that could continue a sequence of this level after an initiator
      belongs to one of the first `s` sequences. */
  ghost predicate TakenBetween(types: seq<BidiClass>, levels: seq<int>, runs: seq<LevelRun>,
                               level: int, s: nat, lo: int, hi: int)
    requires WellPlaced(types, levels, runs)
  {
    forall r {:trigger runs[r]} |
      0 <= lo <= r < hi <= |runs| && runs[r].level == level && StartsWithPdi(types, levels, runs[r])
      :: 1 <= runs[r].seqId <= s
  }

  /** Sequence number `s` (from 0) starts with the first run the earlier ones left, and goes on
      from an initiator to the next free run of the same level that starts with a PDI. */
  ghost predicate Linked(types: seq<BidiClass>, levels: seq<int>, runs: seq<LevelRun>, sq: RunSequence, s: nat)
    requires WellPlaced(types, levels, runs)
  {
    && sq.runs != []
    && (forall p {:trigger sq.runs[p]} :: 0 <= p < |sq.runs| ==>
          sq.runs[p] < |runs| && runs[sq.runs[p]].seqId == s + 1 && runs[sq.runs[p]].level == sq.level)
    && (forall r {:trigger runs[r]} :: 0 <= r < sq.runs[0] && r < |runs| ==> 1 <= runs[r].seqId <= s)
    && (forall p, p' {:trigger sq.runs[p], sq.runs[p']} :: 0 <= p < p' < |sq.runs| && p' == p + 1 ==>
          && sq.runs[p] < sq.runs[p']
          && EndsWithInit(types, runs[sq.runs[p]]) && StartsWithPdi(types, levels, runs[sq.runs[p']])
          && TakenBetween(types, levels, runs, sq.level, s, sq.runs[p] + 1, sq.runs[p']))
  }

  /** A sequence that still ends with an initiator has no free run left to go on with. */
  ghost predicate Finished(types: seq<BidiClass>, levels: seq<int>, runs: seq<LevelRun>, sq: RunSequence, s: nat)
    requires WellPlaced(types, levels, runs)
  {
    && sq.runs != [] && sq.runs[|sq.runs| - 1] < |runs|
    && (EndsWithInit(types, runs[sq.runs[|sq.runs| - 1]]) ==>
          TakenBetween(types, levels, runs, sq.level, s, sq.runs[|sq.runs| - 1] + 1, |runs|))
  }

  ghost predicate Owned(runs: seq<LevelRun>, sqs: seq<RunSequence>) {
    && (forall r {:trigger runs[r]} :: 0 <= r < |runs| ==> runs[r].seqId <= |sqs|)
    && (forall r, s {:trigger runs[r], sqs[s]} :: 0 <= r < |runs| && 0 <= s < |sqs| && runs[r].seqId == s + 1 ==>
          r in sqs[s].runs)
  }

  /** The first `n` sequences are complete. */
  ghost predicate Sequenced(types: seq<BidiClass>, levels: seq<int>, runs: seq<LevelRun>, sqs: seq<RunSequence>,
                            n: nat)
    requires WellPlaced(types, levels, runs)
  {
    && n <= |sqs|
    && forall s {:trigger sqs[s]} :: 0 <= s < n ==>
         Linked(types, levels, runs, sqs[s], s) && Finished(types, levels, runs, sqs[s], s)
  }

  /** What `identify_isolating_run_sequences` makes of the level runs. */
  ghost predicate SequencesOf(types: seq<BidiClass>, levels: seq<int>, runs: seq<LevelRun>,
                              sqs: seq<RunSequence>)
  {
    && WellPlaced(types, levels, runs)
    && Sequenced(types, levels, runs, sqs, |sqs|) && Owned(runs, sqs)
    && forall r {:trigger runs[r]} :: 0 <= r < |runs| ==> 1 <= runs[r].seqId
  }

  function Claim(runs: seq<LevelRun>, idx: nat, id: nat): seq<LevelRun>
    requires idx < |runs|
  {
    runs[idx := runs[idx].(seqId := id)]
  }

  lemma TakenFrame(types: seq<BidiClass>, levels: seq<int>, runs: seq<LevelRun>, idx: nat, id: nat,
                   level: int, s: nat, lo: int, hi: int)
    requires WellPlaced(types, levels, runs) && idx < |runs| && runs[idx].seqId == 0
    requires TakenBetween(types, levels, runs, level, s, lo, hi)
    ensures WellPlaced(types, levels, Claim(runs, idx, id))
    ensures TakenBetween(types, levels, Claim(runs, idx, id), level, s, lo, hi)
  {
  }

  /** Claiming a free run for another sequence changes nothing for sequence `s`. */
  lemma LinkedFrame(types: seq<BidiClass>, levels: seq<int>, runs: seq<LevelRun>, idx: nat, id: nat,
                    sq: RunSequence, s: nat)
    requires WellPlaced(types, levels, runs) && idx < |runs| && runs[idx].seqId == 0
    requires Linked(types, levels, runs, sq, s)
    ensures WellPlaced(types, levels, Claim(runs, idx, id))
    ensures Linked(types, levels, Claim(runs, idx, id), sq, s)
  {
    var runs' := Claim(runs, idx, id);
    forall p {:trigger sq.runs[p]} | 0 <= p < |sq.runs|
      ensures sq.runs[p] < |runs'| && runs'[sq.runs[p]] == runs[sq.runs[p]]
    {
      assert sq.runs[p] != idx;
    }
    assert idx >= sq.runs[0];
    forall p, p' {:trigger sq.runs[p], sq.runs[p']} | 0 <= p < p' < |sq.runs| && p' == p + 1
      ensures TakenBetween(types, levels, runs', sq.level, s, sq.runs[p] + 1, sq.runs[p'])
    {
      TakenFrame(types, levels, runs, idx, id, sq.level, s, sq.runs[p] + 1, sq.runs[p']);
    }
  }

  lemma FinishedFrame(types: seq<BidiClass>, levels: seq<int>, runs: seq<LevelRun>, idx: nat, id: nat,
                      sq: RunSequence, s: nat)
    requires WellPlaced(types, levels, runs) && idx < |runs| && runs[idx].seqId == 0
    requires Linked(types, levels, runs, sq, s) && Finished(types, levels, runs, sq, s)
    ensures WellPlaced(types, levels, Claim(runs, idx, id))
    ensures Finished(types, levels, Claim(runs, idx, id), sq, s)
  {
  }

  lemma SequencedFrame(types: seq<BidiClass>, levels: seq<int>, runs: seq<LevelRun>, idx: nat, id: nat,
                       sqs: seq<RunSequence>, n: nat)
    requires WellPlaced(types, levels, runs) && idx < |runs| && runs[idx].seqId == 0
    requires Sequenced(types, levels, runs, sqs, n)
    ensures WellPlaced(types, levels, Claim(runs, idx, id))
    ensures Sequenced(types, levels, Claim(runs, idx, id), sqs, n)
  {
    forall s {:trigger sqs[s]} | 0 <= s < n
      ensures Linked(types, levels, Claim(runs, idx, id), sqs[s], s)
           && Finished(types, levels, Claim(runs, idx, id), sqs[s], s)
    {
      LinkedFrame(types, levels, runs, idx, id, sqs[s], s);
      FinishedFrame(types, levels, runs, idx, id, sqs[s], s);
    }
  }

  lemma AppendLinked(types: seq<BidiClass>, levels: seq<int>, runs: seq<LevelRun>, idx: nat,
                     sq: RunSequence, sq': RunSequence, s: nat)
    requires WellPlaced(types, levels, runs) && idx < |runs| && runs[idx].seqId == s + 1
    requires Linked(types, levels, runs, sq, s) && sq.runs[|sq.runs| - 1] < idx
    requires EndsWithInit(types, runs[sq.runs[|sq.runs| - 1]])
    requires TakenBetween(types, levels, runs, sq.level, s, sq.runs[|sq.runs| - 1] + 1, idx)
    requires runs[idx].level == sq.level && StartsWithPdi(types, levels, runs[idx])
    requires sq'.runs == sq.runs + [idx] && sq'.level == sq.level
    ensures Linked(types, levels, runs, sq', s)
  {
    var n := |sq.runs|;
    forall p {:trigger sq'.runs[p]} | 0 <= p < n + 1
      ensures sq'.runs[p] < |runs| && runs[sq'.runs[p]].seqId == s + 1 && runs[sq'.runs[p]].level == sq.level
    {
      assert p < n ==> sq'.runs[p] == sq.runs[p];
    }
    forall p, p' {:trigger sq'.runs[p], sq'.runs[p']} | 0 <= p < p' < n + 1 && p' == p + 1
      ensures sq'.runs[p] < sq'.runs[p']
           && EndsWithInit(types, runs[sq'.runs[p]]) && StartsWithPdi(types, levels, runs[sq'.runs[p']])
           && TakenBetween(types, levels, runs, sq.level, s, sq'.runs[p] + 1, sq'.runs[p'])
    {
      assert sq'.runs[p] == sq.runs[p];
      assert p' < n ==> sq'.runs[p'] == sq.runs[p'];
    }
    assert sq'.runs[0] == sq.runs[0];
  }

  /** Claiming the free run `idx` and appending it to the sequence under construction. */
  lemma ExtendLinked(types: seq<BidiClass>, levels: seq<int>, runs: seq<LevelRun>, idx: nat,
                     sq: RunSequence, sq': RunSequence, s: nat)
    requires WellPlaced(types, levels, runs) && idx < |runs| && runs[idx].seqId == 0
    requires Linked(types, levels, runs, sq, s) && sq.runs[|sq.runs| - 1] < idx
    requires EndsWithInit(types, runs[sq.runs[|sq.runs| - 1]])
    requires TakenBetween(types, levels, runs, sq.level, s, sq.runs[|sq.runs| - 1] + 1, idx)
    requires runs[idx].level == sq.level && StartsWithPdi(types, levels, runs[idx])
    requires sq'.runs == sq.runs + [idx] && sq'.level == sq.level
    ensures WellPlaced(types, levels, Claim(runs, idx, s + 1))
    ensures Linked(types, levels, Claim(runs, idx, s + 1), sq', s)
  {
    LinkedFrame(types, levels, runs, idx, s + 1, sq, s);
    TakenFrame(types, levels, runs, idx, s + 1, sq.level, s, sq.runs[|sq.runs| - 1] + 1, idx);
    AppendLinked(types, levels, Claim(runs, idx, s + 1), idx, sq, sq', s);
  }

  /** Only sequence numbers that were free differ. */
  ghost predicate SameRuns(a: seq<LevelRun>, b: seq<LevelRun>) {
    && |a| == |b|
    && forall r {:trigger b[r]} :: 0 <= r < |a| ==>
         b[r] == a[r].(seqId := b[r].seqId) && (a[r].seqId != 0 ==> b[r].seqId == a[r].seqId)
  }

  lemma OwnedExtend(runs: seq<LevelRun>, idx: nat, sqs: seq<RunSequence>, sq: RunSequence, sq': RunSequence)
    requires idx < |runs| && Owned(runs, sqs + [sq]) && sq'.runs == sq.runs + [idx]
    ensures Owned(Claim(runs, idx, |sqs| + 1), sqs + [sq'])
  {
    var runs', all, all' := Claim(runs, idx, |sqs| + 1), sqs + [sq], sqs + [sq'];
    forall r, s {:trigger runs'[r], all'[s]} |
      0 <= r < |runs'| && 0 <= s < |all'| && runs'[r].seqId == s + 1
      ensures r in all'[s].runs
    {
      if r != idx {
        assert runs[r].seqId == s + 1;
        assert r in all[s].runs;
      }
    }
  }

  lemma SequencedAppend(types: seq<BidiClass>, levels: seq<int>, runs: seq<LevelRun>, sqs: seq<RunSequence>,
                        sq: RunSequence)
    requires WellPlaced(types, levels, runs) && Sequenced(types, levels, runs, sqs, |sqs|)
    requires Linked(types, levels, runs, sq, |sqs|) && Finished(types, levels, runs, sq, |sqs|)
    ensures Sequenced(types, levels, runs, sqs + [sq], |sqs| + 1)
  {
  }

  function LastRun(sq: RunSequence): nat
    requires sq.runs != []
  {
    sq.runs[|sq.runs| - 1]
  }

  /** The look-ahead for the sequence `sq` after the complete ones `sqs` has come to run `idx`. */
  ghost predicate Linking(types: seq<BidiClass>, levels: seq<int>, runs: seq<LevelRun>, sqs: seq<RunSequence>,
                          sq: RunSequence, idx: nat)
  {
    && WellPlaced(types, levels, runs)
    && Sequenced(types, levels, runs, sqs, |sqs|) && Owned(runs, sqs + [sq])
    && Linked(types, levels, runs, sq, |sqs|) && LastRun(sq) < idx <= |runs|
    && EndsWithInit(types, runs[LastRun(sq)])
    && TakenBetween(types, levels, runs, sq.level, |sqs|, LastRun(sq) + 1, idx)
  }

  lemma {:induction false} LinkedAscending(types: seq<BidiClass>, levels: seq<int>, runs: seq<LevelRun>,
                                           sq: RunSequence, s: nat, p: nat, p': nat)
    requires WellPlaced(types, levels, runs) && Linked(types, levels, runs, sq, s) && p < p' < |sq.runs|
    ensures sq.runs[p] < sq.runs[p']
    decreases p'
  {
    assert sq.runs[p' - 1] < sq.runs[p'];
    if p < p' - 1 {
      LinkedAscending(types, levels, runs, sq, s, p, p' - 1);
    }
  }

  lemma NotLinkedYet(types: seq<BidiClass>, levels: seq<int>, runs: seq<LevelRun>, sq: RunSequence, s: nat, idx: nat)
    requires WellPlaced(types, levels, runs) && Linked(types, levels, runs, sq, s) && LastRun(sq) < idx
    ensures idx !in sq.runs
  {
    forall p | 0 <= p < |sq.runs| ensures sq.runs[p] < idx {
      if p < |sq.runs| - 1 {
        LinkedAscending(types, levels, runs, sq, s, p, |sq.runs| - 1);
      }
    }
  }

  lemma OwnedEarlier(runs: seq<LevelRun>, sqs: seq<RunSequence>, sq: RunSequence, idx: nat)
    requires Owned(runs, sqs + [sq]) && idx < |runs| && idx !in sq.runs
    ensures runs[idx].seqId <= |sqs|
  {
    assert (sqs + [sq])[|sqs|] == sq;
  }

  lemma LinkSkip(types: seq<BidiClass>, levels: seq<int>, runs: seq<LevelRun>, sqs: seq<RunSequence>,
                 sq: RunSequence, idx: nat)
    requires Linking(types, levels, runs, sqs, sq, idx) && idx < |runs|
    requires !(runs[idx].seqId == 0 && runs[idx].level == sq.level && StartsWithPdi(types, levels, runs[idx]))
    ensures Linking(types, levels, runs, sqs, sq, idx + 1)
  {
    NotLinkedYet(types, levels, runs, sq, |sqs|, idx);
    OwnedEarlier(runs, sqs, sq, idx);
    TakenNext(types, levels, runs, sq.level, |sqs|, LastRun(sq) + 1, idx);
  }

  lemma TakenNext(types: seq<BidiClass>, levels: seq<int>, runs: seq<LevelRun>, level: int, s: nat, lo: int, idx: nat)
    requires WellPlaced(types, levels, runs) && TakenBetween(types, levels, runs, level, s, lo, idx) && idx < |runs|
    requires runs[idx].level == level && StartsWithPdi(types, levels, runs[idx]) ==> 1 <= runs[idx].seqId <= s
    ensures TakenBetween(types, levels, runs, level, s, lo, idx + 1)
  {
  }

  lemma LinkTake(types: seq<BidiClass>, levels: seq<int>, runs: seq<LevelRun>, sqs: seq<RunSequence>,
                 sq: RunSequence, sq': RunSequence, idx: nat)
    requires Linking(types, levels, runs, sqs, sq, idx) && idx < |runs|
    requires runs[idx].seqId == 0 && runs[idx].level == sq.level && StartsWithPdi(types, levels, runs[idx])
    requires sq'.runs == sq.runs + [idx] && sq'.level == sq.level
    ensures var runs' := Claim(runs, idx, |sqs| + 1);
            && SameRuns(runs, runs') && WellPlaced(types, levels, runs')
            && Sequenced(types, levels, runs', sqs, |sqs|) && Owned(runs', sqs + [sq'])
            && Linked(types, levels, runs', sq', |sqs|)
            && (EndsWithInit(types, runs'[idx]) ==> Linking(types, levels, runs', sqs, sq', idx + 1))
            && (!EndsWithInit(types, runs'[idx]) ==> Finished(types, levels, runs', sq', |sqs|))
  {
    ExtendLinked(types, levels, runs, idx, sq, sq', |sqs|);
    SequencedFrame(types, levels, runs, idx, |sqs| + 1, sqs, |sqs|);
    OwnedExtend(runs, idx, sqs, sq, sq');
  }

  lemma SameRunsAcross(a: seq<LevelRun>, b: seq<LevelRun>, c: seq<LevelRun>)
    requires SameRuns(a, b) && SameRuns(b, c)
    ensures SameRuns(a, c)
  {
  }

  /** A sequence starts with the first free run. */
  lemma StartSequence(types: seq<BidiClass>, levels: seq<int>, runs: seq<LevelRun>, sqs: seq<RunSequence>,
                      sq: RunSequence, runIdx: nat)
    requires WellPlaced(types, levels, runs) && runIdx < |runs| && runs[runIdx].seqId == 0
    requires Sequenced(types, levels, runs, sqs, |sqs|) && Owned(runs, sqs)
    requires forall r {:trigger runs[r]} :: 0 <= r < runIdx ==> 1 <= runs[r].seqId
    requires sq.runs == [runIdx] && sq.level == runs[runIdx].level
    ensures var runs' := Claim(runs, runIdx, |sqs| + 1);
            && SameRuns(runs, runs') && WellPlaced(types, levels, runs')
            && Sequenced(types, levels, runs', sqs, |sqs|) && Owned(runs', sqs + [sq])
            && Linked(types, levels, runs', sq, |sqs|)
            && (EndsWithInit(types, runs'[runIdx]) ==> Linking(types, levels, runs', sqs, sq, runIdx + 1))
            && (!EndsWithInit(types, runs'[runIdx]) ==> Finished(types, levels, runs', sq, |sqs|))
  {
    SequencedFrame(types, levels, runs, runIdx, |sqs| + 1, sqs, |sqs|);
    OwnedStart(runs, runIdx, sqs, sq);
  }

  lemma OwnedStart(runs: seq<LevelRun>, idx: nat, sqs: seq<RunSequence>, sq: RunSequence)
    requires idx < |runs| && Owned(runs, sqs) && sq.runs == [idx]
    ensures Owned(Claim(runs, idx, |sqs| + 1), sqs + [sq])
  {
  }

  /** What is known of sequences depends on their runs and level only. */
  lemma SequencesSame(types: seq<BidiClass>, levels: seq<int>, runs: seq<LevelRun>, sqs: seq<RunSequence>,
                      sqs': seq<RunSequence>)
    requires SequencesOf(types, levels, runs, sqs) && |sqs| == |sqs'|
    requires forall s {:trigger sqs'[s]} :: 0 <= s < |sqs| ==>
      sqs'[s].runs == sqs[s].runs && sqs'[s].level == sqs[s].level
    ensures SequencesOf(types, levels, runs, sqs')
  {
    forall s {:trigger sqs'[s]} | 0 <= s < |sqs'|
      ensures Linked(types, levels, runs, sqs'[s], s) && Finished(types, levels, runs, sqs'[s], s)
    {
      assert Linked(types, levels, runs, sqs[s], s) && Finished(types, levels, runs, sqs[s], s);
    }
    forall r, s {:trigger runs[r], sqs'[s]} | 0 <= r < |runs| && 0 <= s < |sqs'| && runs[r].seqId == s + 1
      ensures r in sqs'[s].runs
    {
      assert r in sqs[s].runs;
    }
  }

  /** The loop over the runs has come to run `k`. */
  ghost predicate Assigning(types: seq<BidiClass>, levels: seq<int>, runs0: seq<LevelRun>, runs: seq<LevelRun>,
                            sqs: seq<RunSequence>, k: nat)
  {
    && SameRuns(runs0, runs) && WellPlaced(types, levels, runs) && k <= |runs|
    && Sequenced(types, levels, runs, sqs, |sqs|) && Owned(runs, sqs)
    && (forall r {:trigger runs[r]} :: 0 <= r < k ==> 1 <= runs[r].seqId)
    && (forall s {:trigger sqs[s]} :: 0 <= s < |sqs| ==> sqs[s].indices == [])
  }
}
