/** Rules I1, I2 and L1, and the runs of a line in logical order. */
module Lines {
  import opened Options
  import opened BidiTypes
  import opened Reorder
  import opened VisualRuns

  // ---------------------------------------------------------------- I1 and I2

  function ImplicitLevel(level: int, c: BidiClass): int {
    if !Visible(level) then level
    else if OddLevel(level) then
      if c.LeftToRight? || c.ArabicNumber? || c.EuropeanNumber? then level + 1 else level
    else if c.RightToLeft? then level + 1
    else if c.ArabicNumber? || c.EuropeanNumber? then level + 2
    else level
  }

  predicate IsResolved(c: BidiClass) {
    c.LeftToRight? || c.RightToLeft? || c.EuropeanNumber? || c.ArabicNumber?
  }

  /** A resolved level is odd exactly when the class is R, and never leaves 0 to 126. */
  lemma ImplicitParity(level: int, c: BidiClass)
    requires 0 <= level <= MAX_DEPTH && IsResolved(c)
    ensures level <= ImplicitLevel(level, c) <= MAX_RESOLVED_LEVEL
    ensures OddLevel(ImplicitLevel(level, c)) <==> c.RightToLeft?
  {
  }

  /** The class raises the level no further than it must: L and R to the least level of their parity,
      numbers to the least even level above the embedding level. */
  lemma ImplicitIsLeast(level: int, c: BidiClass, m: int)
    requires 0 <= level <= MAX_DEPTH && IsResolved(c)
    requires level <= m && OddLevel(m) == c.RightToLeft? && (c.EuropeanNumber? || c.ArabicNumber? ==> level < m)
    ensures ImplicitLevel(level, c) <= m
    ensures c.EuropeanNumber? || c.ArabicNumber? ==> level < ImplicitLevel(level, c)
  {
  }

  // ---------------------------------------------------------------- L1

  predicate IsSeparator(c: BidiClass) {
    c.SegmentSeparator? || c.ParagraphSeparator?
  }

  predicate IsSpace(c: BidiClass) {
    c.WhiteSpace? || c.IsIsoControl()
  }

  /** Only whitespace, isolate controls and removed characters stand between `i` and `e`. */
  ghost predicate ClearBetween(orig: seq<BidiClass>, levels: seq<int>, i: int, e: int)
    requires |orig| == |levels|
  {
    forall j {:trigger orig[j]} :: 0 <= i < j < e <= |orig| ==> IsSpace(orig[j]) || !Visible(levels[j])
  }

  /** Whitespace before a separator that stands before `limit`. */
  ghost predicate BeforeSeparator(orig: seq<BidiClass>, levels: seq<int>, i: int, limit: int)
    requires |orig| == |levels|
  {
    exists e {:trigger orig[e]} :: 0 <= i < e < limit && e < |orig| && IsSeparator(orig[e])
      && ClearBetween(orig, levels, i, e)
  }

  /** What L1 resets on the line `[start..end)`. */
  ghost predicate IsReset(orig: seq<BidiClass>, levels: seq<int>, i: int, end: int)
    requires |orig| == |levels| && 0 <= i < end <= |orig|
  {
    IsResetBefore(orig, levels, i, end) || (IsSpace(orig[i]) && ClearBetween(orig, levels, i, end))
  }

  ghost predicate IsResetBefore(orig: seq<BidiClass>, levels: seq<int>, i: int, n: int)
    requires |orig| == |levels| && 0 <= i < |orig|
  {
    IsSeparator(orig[i]) || (IsSpace(orig[i]) && BeforeSeparator(orig, levels, i, n))
  }

  /** The levels when the scan forward has come to `n`. */
  ghost predicate ResetUpTo(orig: seq<BidiClass>, levels: seq<int>, base: int, start: int, n: int, cur: seq<int>)
    requires |orig| == |levels| && 0 <= start <= n <= |orig|
  {
    && |cur| == |levels|
    && forall i {:trigger cur[i]} :: 0 <= i < |levels| ==>
         cur[i] == if start <= i < n && IsResetBefore(orig, levels, i, n) then base else levels[i]
  }

  /** The levels after the scan backward from `e`. */
  ghost predicate ResetBefore(orig: seq<BidiClass>, cur: seq<int>, base: int, start: int, e: int, cur': seq<int>)
    requires |orig| == |cur| && 0 <= start <= e <= |orig|
  {
    && |cur'| == |cur|
    && forall i {:trigger cur'[i]} :: 0 <= i < |cur| ==>
         cur'[i] == if start <= i < e && IsSpace(orig[i]) && ClearBetween(orig, cur, i, e) then base else cur[i]
  }

  /** `reset_contiguous_whitespace_before` */
  method ResetContiguousWhitespaceBefore(orig: seq<BidiClass>, base: int, start: nat, e: nat, levels: seq<int>)
    returns (cur: seq<int>)
    requires |orig| == |levels| && start <= e <= |orig| && 0 <= base
    ensures ResetBefore(orig, levels, base, start, e, cur)
  {
    cur := levels;
    var i := e;
    while start < i
      invariant start <= i <= e && |cur| == |levels|
      invariant forall j {:trigger orig[j]} :: i <= j < e ==> IsSpace(orig[j]) || !Visible(levels[j])
      invariant forall j {:trigger cur[j]} :: 0 <= j < |cur| ==>
        cur[j] == if i <= j < e && IsSpace(orig[j]) then base else levels[j]
    {
      i := i - 1;
      if IsSpace(orig[i]) {
        cur := cur[i := base];
      } else if !Visible(cur[i]) {
      } else {
        break;
      }
    }
    BackwardScan(orig, levels, base, start, i, e, cur);
  }

  lemma BackwardScan(orig: seq<BidiClass>, levels: seq<int>, base: int, start: nat, i: nat, e: nat, cur: seq<int>)
    requires |orig| == |levels| == |cur| && start <= i <= e <= |orig|
    requires forall j {:trigger orig[j]} :: i < j < e ==> IsSpace(orig[j]) || !Visible(levels[j])
    requires forall j {:trigger cur[j]} :: 0 <= j < |cur| ==>
      cur[j] == if i <= j < e && IsSpace(orig[j]) then base else levels[j]
    requires i == start || (i < e && !IsSpace(orig[i]) && Visible(levels[i]))
    ensures ResetBefore(orig, levels, base, start, e, cur)
  {
  }

  ghost predicate SeparatorsVisible(orig: seq<BidiClass>, levels: seq<int>)
    requires |orig| == |levels|
  {
    forall j {:trigger orig[j]} {:trigger levels[j]} :: 0 <= j < |orig| && IsSeparator(orig[j]) ==> Visible(levels[j])
  }

  /** One step of the scan forward. */
  lemma ResetNext(orig: seq<BidiClass>, levels: seq<int>, base: int, start: nat, n: nat,
                  cur: seq<int>, cur': seq<int>)
    requires |orig| == |levels| && start <= n < |orig| && 0 <= base && SeparatorsVisible(orig, levels)
    requires ResetUpTo(orig, levels, base, start, n, cur)
    requires if IsSeparator(orig[n]) then ResetBefore(orig, cur[n := base], base, start, n, cur') else cur' == cur
    ensures ResetUpTo(orig, levels, base, start, n + 1, cur')
  {
  }

  lemma ResetEnd(orig: seq<BidiClass>, levels: seq<int>, base: int, start: nat, end: nat,
                 cur: seq<int>, cur': seq<int>)
    requires |orig| == |levels| && start <= end <= |orig| && 0 <= base && SeparatorsVisible(orig, levels)
    requires ResetUpTo(orig, levels, base, start, end, cur) && ResetBefore(orig, cur, base, start, end, cur')
    ensures forall i {:trigger cur'[i]} :: start <= i < end ==>
      cur'[i] == if IsReset(orig, levels, i, end) then base else levels[i]
  {
  }

  /** The levels that rule L1 gives the line `[start..end)`. */
  ghost function L1Levels(orig: seq<BidiClass>, levels: seq<int>, base: int, start: nat, end: nat): (lv: seq<int>)
    requires |orig| == |levels| && start <= end <= |levels|
    ensures |lv| == end - start
    ensures forall i {:trigger lv[i]} :: 0 <= i < |lv| ==>
      lv[i] == if IsReset(orig, levels, start + i, end) then base else levels[start + i]
  {
    seq(end - start, i requires 0 <= i < end - start =>
      if IsReset(orig, levels, start + i, end) then base else levels[start + i])
  }

  lemma LineInRange(orig: seq<BidiClass>, levels: seq<int>, base: int, start: nat, end: nat)
    requires |orig| == |levels| && start <= end <= |levels| && LevelsInRange(levels) && 0 <= base <= 1
    ensures LevelsInRange(L1Levels(orig, levels, base, start, end))
  {
  }

  // ---------------------------------------------------------------- runs in logical order

  datatype BidiRun = BidiRun(direction: Direction, level: int, start: nat, end: nat, removedByX9: seq<nat>)

  /** `[a..b)` is a maximal stretch of one level. */
  ghost predicate IsStretch(levels: seq<int>, a: int, b: int) {
    && 0 <= a < b <= |levels|
    && (forall k {:trigger levels[k]} :: a <= k < b ==> levels[k] == levels[a])
    && (b < |levels| ==> levels[b] != levels[a])
    && (a > 0 ==> levels[a - 1] != levels[a])
  }

  /** The stretch `[run.start..run.end)` is the first visible one in `[a..b)`, and ends there. */
  ghost predicate FirstRun(levels: seq<int>, lineStart: nat, a: nat, b: nat, run: BidiRun) {
    && lineStart + a <= run.start && run.end == lineStart + b
    && IsStretch(levels, run.start - lineStart, b)
    && run.level == levels[run.start - lineStart] && Visible(run.level)
    && run.direction == DirectionOf(run.level)
    && NothingVisible(levels, a, run.start - lineStart)
    && run.removedByX9 == []
  }

  ghost predicate NothingVisible(levels: seq<int>, a: int, b: int) {
    forall k {:trigger levels[k]} :: 0 <= a <= k < b <= |levels| ==> !Visible(levels[k])
  }

  /** The removed characters of `[a..b)`, as positions of the paragraph. */
  function RemovedIn(levels: seq<int>, lineStart: nat, a: nat, b: nat): (r: seq<nat>)
    requires a <= b <= |levels|
    ensures r == [] <==> forall k {:trigger levels[k]} :: a <= k < b ==> Visible(levels[k])
  {
    if a == b then []
    else RemovedIn(levels, lineStart, a, b - 1) + if Visible(levels[b - 1]) then [] else [lineStart + b - 1]
  }

  method CollectRemoved(levels: seq<int>, lineStart: nat, start: nat, end: nat) returns (removed: seq<nat>)
    requires start <= end <= |levels|
    ensures removed == RemovedIn(levels, lineStart, start, end)
  {
    removed := [];
    for idx := start to end
      invariant removed == RemovedIn(levels, lineStart, start, idx)
    {
      if !Visible(levels[idx]) {
        removed := removed + [lineStart + idx];
      }
    }
  }

  class RunIter {
    var pos: nat
    const levels: seq<int>
    const lineStart: nat

    constructor (levels: seq<int>, lineStart: nat)
      ensures pos == 0 && this.levels == levels && this.lineStart == lineStart
    {
      this.pos, this.levels, this.lineStart := 0, levels, lineStart;
    }

    /** The iterator stands at the end of the line or where the level changes. */
    ghost predicate AtStretch()
      reads this
    {
      pos <= |levels| && (0 < pos < |levels| ==> levels[pos - 1] != levels[pos])
    }

    /** The next stretch of visible characters, with the offset of the line. */
    method Next() returns (r: Option<BidiRun>)
      requires AtStretch()
      modifies this`pos
      ensures AtStretch() && old(pos) <= pos
      ensures r == None ==> pos == |levels| && NothingVisible(levels, old(pos), pos)
      ensures r.Some? ==> FirstRun(levels, lineStart, old(pos), pos, r.value)
    {
      while pos < |levels|
        invariant AtStretch() && old(pos) <= pos && NothingVisible(levels, old(pos), pos)
        decreases |levels| - pos
      {
        var start := pos;
        var len := SpanLen(start, levels);
        pos := pos + len;
        var level := levels[start];
        if Visible(level) {
          var removed := CollectRemoved(levels, lineStart, start, start + len);
          return Some(BidiRun(DirectionOf(level), level, lineStart + start, lineStart + start + len, removed));
        }
      }
      return None;
    }
  }

  ghost predicate IsVisibleRun(levels: seq<int>, lineStart: nat, run: BidiRun) {
    && lineStart <= run.start && IsStretch(levels, run.start - lineStart, run.end - lineStart)
    && run.level == levels[run.start - lineStart] && Visible(run.level)
    && run.direction == DirectionOf(run.level)
    && run.removedByX9 == []
  }

  /** The runs are disjoint ascending stretches of one visible level, nothing is removed inside any
      of them, and below `upto` they cover exactly the visible positions. */
  ghost predicate RunsCover(levels: seq<int>, lineStart: nat, runs: seq<BidiRun>, upto: nat) {
    && (forall r {:trigger runs[r]} :: 0 <= r < |runs| ==>
          IsVisibleRun(levels, lineStart, runs[r]) && runs[r].end <= lineStart + upto)
    && (forall r, q {:trigger runs[r], runs[q]} :: 0 <= r < q < |runs| ==> runs[r].end <= runs[q].start)
    && (forall k {:trigger InSomeRun(runs, lineStart, k)} :: 0 <= k < upto && k < |levels| && Visible(levels[k]) ==>
          InSomeRun(runs, lineStart, k))
  }

  ghost predicate InSomeRun(runs: seq<BidiRun>, lineStart: nat, k: int) {
    exists r {:trigger runs[r]} :: 0 <= r < |runs| && runs[r].start <= lineStart + k < runs[r].end
  }

  /** What a caller of `runs` or `line_runs` collects. */
  method CollectRuns(levels: seq<int>, lineStart: nat) returns (runs: seq<BidiRun>)
    ensures RunsCover(levels, lineStart, runs, |levels|)
  {
    runs := [];
    var it := new RunIter(levels, lineStart);
    var done := false;
    while !done
      invariant fresh(it) && it.AtStretch() && it.levels == levels && it.lineStart == lineStart
      invariant RunsCover(levels, lineStart, runs, if done then |levels| else it.pos)
      decreases !done, |levels| - it.pos
    {
      ghost var before := it.pos;
      var next := it.Next();
      if next == None {
        CoverEnd(levels, lineStart, runs, before);
        done := true;
      } else {
        CoverAppend(levels, lineStart, runs, next.value, before, it.pos);
        runs := runs + [next.value];
      }
    }
  }

  lemma CoverEnd(levels: seq<int>, lineStart: nat, runs: seq<BidiRun>, a: nat)
    requires RunsCover(levels, lineStart, runs, a) && a <= |levels| && NothingVisible(levels, a, |levels|)
    ensures RunsCover(levels, lineStart, runs, |levels|)
  {
  }

  lemma InSomeRunAppend(runs: seq<BidiRun>, run: BidiRun, lineStart: nat, k: int)
    requires InSomeRun(runs, lineStart, k) || run.start <= lineStart + k < run.end
    ensures InSomeRun(runs + [run], lineStart, k)
  {
    var runs' := runs + [run];
    if InSomeRun(runs, lineStart, k) {
      var r :| 0 <= r < |runs| && runs[r].start <= lineStart + k < runs[r].end;
      assert runs'[r] == runs[r];
    } else {
      assert runs'[|runs|] == run;
    }
  }

  lemma CoverAppend(levels: seq<int>, lineStart: nat, runs: seq<BidiRun>, run: BidiRun, a: nat, b: nat)
    requires RunsCover(levels, lineStart, runs, a) && a <= b <= |levels|
    requires FirstRun(levels, lineStart, a, b, run)
    ensures RunsCover(levels, lineStart, runs + [run], b)
  {
    forall k {:trigger InSomeRun(runs + [run], lineStart, k)} | 0 <= k < b && Visible(levels[k])
      ensures InSomeRun(runs + [run], lineStart, k)
    {
      assert k < a ==> InSomeRun(runs, lineStart, k);
      InSomeRunAppend(runs, run, lineStart, k);
    }
  }
}
