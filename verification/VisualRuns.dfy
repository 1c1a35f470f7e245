/** `reordered_runs` of `bidi/src/lib.rs`: the visual order of a line cut into runs of one level. */
module VisualRuns {
  import opened Options
  import opened BidiTypes
  import opened Reorder
  import opened VisualOrder

  datatype ReorderedRun = ReorderedRun(direction: Direction, level: int, start: int, end: int, indices: seq<int>)

  /** `iter().min()` and `iter().max()` */
  function MinOf(s: seq<int>): (m: int)
    requires s != []
    ensures m in s
    ensures forall k {:trigger s[k]} :: 0 <= k < |s| ==> m <= s[k]
  {
    if |s| == 1 then s[0] else
      assert forall k {:trigger s[k]} :: 0 <= k < |s| - 1 ==> s[k] == s[..|s| - 1][k];
      Min(MinOf(s[..|s| - 1]), s[|s| - 1])
  }

  function MaxOf(s: seq<int>): (m: int)
    requires s != []
    ensures m in s
    ensures forall k {:trigger s[k]} :: 0 <= k < |s| ==> s[k] <= m
  {
    if |s| == 1 then s[0] else
      assert forall k {:trigger s[k]} :: 0 <= k < |s| - 1 ==> s[k] == s[..|s| - 1][k];
      Max(MaxOf(s[..|s| - 1]), s[|s| - 1])
  }

  /** `span_len`: the length of the stretch of equal levels from `start` on. */
  method SpanLen(start: nat, levels: seq<int>) returns (len: nat)
    requires start < |levels|
    ensures 1 <= len && start + len <= |levels|
    ensures forall k {:trigger levels[k]} :: start <= k < start + len ==> levels[k] == levels[start]
    ensures start + len < |levels| ==> levels[start + len] != levels[start]
  {
    len := 1;
    while start + len < |levels| && levels[start + len] == levels[start]
      invariant 1 <= len && start + len <= |levels|
      invariant forall k :: start <= k < start + len ==> levels[k] == levels[start]
    {
      len := len + 1;
    }
  }

  function Flatten(runs: seq<ReorderedRun>): seq<int> {
    if runs == [] then [] else Flatten(runs[..|runs| - 1]) + runs[|runs| - 1].indices
  }

  /** The level of each entry of the flattened runs, as the runs have it. */
  function Spread(runs: seq<ReorderedRun>): seq<int> {
    if runs == [] then []
    else
      var run := runs[|runs| - 1];
      Spread(runs[..|runs| - 1]) + seq(|run.indices|, _ => run.level)
  }

  /** The level of the character at position `x` of the paragraph, on a line that starts at `first`. */
  function LevelAt(lv: seq<int>, first: int, x: int): int {
    if first <= x < first + |lv| then lv[x - first] else NO_LEVEL
  }

  /** `lo` and `hi` are the least and the greatest entry of `s`. */
  ghost predicate Ranges(s: seq<int>, lo: int, hi: int) {
    && lo in s && hi in s
    && forall k {:trigger s[k]} :: 0 <= k < |s| ==> lo <= s[k] <= hi
  }

  ghost predicate IsShape(run: ReorderedRun) {
    run.indices != [] && run.direction == DirectionOf(run.level) && Ranges(run.indices, run.start, run.end - 1)
  }

  predicate HasLevel(lv: seq<int>, first: int, x: int, level: int) {
    Visible(level) && LevelAt(lv, first, x) == level
  }

  /** Every character of the run is visible and has its level. */
  ghost predicate Carries(lv: seq<int>, first: int, run: ReorderedRun) {
    forall k {:trigger run.indices[k]} :: 0 <= k < |run.indices| ==> HasLevel(lv, first, run.indices[k], run.level)
  }

  ghost predicate AllCarry(lv: seq<int>, first: int, runs: seq<ReorderedRun>) {
    forall r {:trigger runs[r]} :: 0 <= r < |runs| ==> Carries(lv, first, runs[r])
  }

  ghost predicate CutApart(runs: seq<ReorderedRun>) {
    && (forall r {:trigger runs[r]} :: 0 <= r < |runs| ==> IsShape(runs[r]))
    && (forall r, r' {:trigger runs[r], runs[r']} ::
          0 <= r < r' < |runs| && r' == r + 1 ==> runs[r].level != runs[r'].level)
  }

  /** The runs cut the visual order at every change of level, and nowhere else. */
  ghost predicate CutsByLevel(lv: seq<int>, first: int, reordered: seq<int>, runs: seq<ReorderedRun>) {
    && Flatten(runs) == reordered && CutApart(runs)
    && AllCarry(lv, first, runs)
  }

  /** The runs cut `out` where the levels `levels` change, whatever those are. */
  ghost predicate CutsAsRead(levels: seq<int>, out: seq<int>, runs: seq<ReorderedRun>) {
    Flatten(runs) == out && Spread(runs) == levels && CutApart(runs)
  }

  /** The levels that the code reads: it takes the paragraph positions for positions of the line, and
      drops the entries without a level. */
  function LevelsRead(lv: seq<int>, out: seq<int>): (levels: seq<int>)
    ensures |levels| <= |out|
    ensures forall q {:trigger levels[q]} :: 0 <= q < |levels| ==> Visible(levels[q])
  {
    if out == [] then []
    else
      var level := LevelAt(lv, 0, out[|out| - 1]);
      LevelsRead(lv, out[..|out| - 1]) + if Visible(level) then [level] else []
  }

  ghost predicate IndexesLine(lv: seq<int>, reordered: seq<int>) {
    forall q {:trigger reordered[q]} :: 0 <= q < |reordered| ==> reordered[q] < |lv|
  }

  /** The paragraph positions of the visible characters are small enough to index the line. */
  ghost predicate PositionsFit(lv: seq<int>, first: nat) {
    forall i {:trigger lv[i]} :: 0 <= i < |lv| && Visible(lv[i]) ==> first + i < |lv|
  }

  lemma IndexesVisible(lv: seq<int>, first: nat, out: seq<int>)
    requires ListsVisible(lv, first, out)
    ensures IndexesLine(lv, out) <==> PositionsFit(lv, first)
  {
    if IndexesLine(lv, out) {
      forall i {:trigger lv[i]} | 0 <= i < |lv| && Visible(lv[i]) ensures first + i < |lv| {
        assert Shows(out, first, i);
        var q :| 0 <= q < |out| && out[q] == first + i;
      }
    }
    if PositionsFit(lv, first) {
      forall q {:trigger out[q]} | 0 <= q < |out| ensures out[q] < |lv| {
        assert Visible(lv[out[q] - first]);
      }
    }
  }

  /** `levels[log_idx]` indexes the levels of the line with a paragraph index, which is out of
      bounds (`None`) for some lines that do not start the paragraph. */
  method ReorderLevels(first: nat, lv: seq<int>, reordered: seq<int>) returns (r: Option<seq<int>>)
    requires ListsVisible(lv, first, reordered)
    ensures r.Some? <==> IndexesLine(lv, reordered)
    ensures r.Some? ==> r.value == LevelsRead(lv, reordered)
  {
    var levels: seq<int> := [];
    for q := 0 to |reordered|
      invariant forall k {:trigger reordered[k]} :: 0 <= k < q ==> reordered[k] < |lv|
      invariant levels == LevelsRead(lv, reordered[..q])
    {
      if |lv| <= reordered[q] {
        return None;
      }
      assert reordered[..q + 1][..q] == reordered[..q];
      if Visible(lv[reordered[q]]) {
        levels := levels + [lv[reordered[q]]];
      }
    }
    assert reordered[..|reordered|] == reordered;
    return Some(levels);
  }

  /** The body of `reordered_runs` after `reorder_line`. */
  method RunsOfLine(first: nat, lv: seq<int>, reordered: seq<int>) returns (r: Option<seq<ReorderedRun>>)
    requires ListsVisible(lv, first, reordered)
    ensures r.Some? <==> PositionsFit(lv, first)
    ensures r.Some? ==> CutsAsRead(LevelsRead(lv, reordered), reordered[..|LevelsRead(lv, reordered)|], r.value)
    ensures r.Some? ==> (CutsByLevel(lv, first, reordered, r.value) <==> LevelsAgree(lv, first))
    ensures r.Some? && NothingFound(lv, first) ==> r.value == []
  {
    IndexesVisible(lv, first, reordered);
    var reorderedLevels := ReorderLevels(first, lv, reordered);
    if reorderedLevels == None {
      return None;
    }
    var runs := CutRuns(reorderedLevels.value, reordered);
    RunsRightIff(lv, first, reordered, runs);
    if NothingFound(lv, first) {
      NothingRead(lv, first, reordered);
      NoRunsLeft(runs);
    }
    return Some(runs);
  }

  method CutRuns(levels: seq<int>, reordered: seq<int>) returns (runs: seq<ReorderedRun>)
    requires |levels| <= |reordered|
    ensures CutsAsRead(levels, reordered[..|levels|], runs)
  {
    runs := [];
    var idx := 0;
    while idx < |levels|
      invariant 0 <= idx <= |levels|
      invariant CutUpTo(levels, reordered, idx, runs)
    {
      idx, runs := CutOne(levels, reordered, idx, runs);
    }
    assert levels[..idx] == levels;
  }

  method CutOne(levels: seq<int>, reordered: seq<int>, idx: nat, runs: seq<ReorderedRun>)
    returns (idx': nat, runs': seq<ReorderedRun>)
    requires CutUpTo(levels, reordered, idx, runs) && idx < |levels|
    ensures CutUpTo(levels, reordered, idx', runs') && idx < idx'
  {
    var len := SpanLen(idx, levels);
    idx' := idx + len;
    runs' := runs + [RunOf(levels[idx], reordered[idx..idx'])];
    CutNext(levels, reordered, idx, idx', runs, runs');
  }

  /** The first `idx` entries have been cut, and what follows does not belong to the last run. */
  ghost predicate CutUpTo(levels: seq<int>, reordered: seq<int>, idx: nat, runs: seq<ReorderedRun>) {
    && idx <= |levels| <= |reordered|
    && CutsAsRead(levels[..idx], reordered[..idx], runs)
    && (idx < |levels| && runs != [] ==> runs[|runs| - 1].level != levels[idx])
  }

  function RunOf(level: int, indices: seq<int>): ReorderedRun
    requires indices != []
  {
    ReorderedRun(DirectionOf(level), level, MinOf(indices), MaxOf(indices) + 1, indices)
  }

  lemma FlattenAppend(runs: seq<ReorderedRun>, run: ReorderedRun)
    ensures Flatten(runs + [run]) == Flatten(runs) + run.indices
    ensures Spread(runs + [run]) == Spread(runs) + seq(|run.indices|, _ => run.level)
  {
    assert (runs + [run])[..|runs|] == runs;
  }

  lemma CutApartAppend(runs: seq<ReorderedRun>, run: ReorderedRun)
    requires CutApart(runs) && IsShape(run) && (runs != [] ==> runs[|runs| - 1].level != run.level)
    ensures CutApart(runs + [run])
  {
  }

  lemma StretchAppend(levels: seq<int>, idx: nat, idx': nat, level: int)
    requires idx <= idx' <= |levels|
    requires forall k {:trigger levels[k]} :: idx <= k < idx' ==> levels[k] == level
    ensures levels[..idx'] == levels[..idx] + seq(idx' - idx, _ => level)
  {
  }

  lemma CutNext(levels: seq<int>, reordered: seq<int>, idx: nat, idx': nat, runs: seq<ReorderedRun>,
                runs': seq<ReorderedRun>)
    requires CutUpTo(levels, reordered, idx, runs) && idx < idx' <= |levels|
    requires forall k {:trigger levels[k]} :: idx <= k < idx' ==> levels[k] == levels[idx]
    requires idx' < |levels| ==> levels[idx'] != levels[idx]
    requires runs' == runs + [RunOf(levels[idx], reordered[idx..idx'])]
    ensures CutUpTo(levels, reordered, idx', runs')
  {
    var run := RunOf(levels[idx], reordered[idx..idx']);
    FlattenAppend(runs, run);
    CutApartAppend(runs, run);
    StretchAppend(levels, idx, idx', levels[idx]);
    assert reordered[..idx'] == reordered[..idx] + reordered[idx..idx'];
  }

  // ---------------------------------------------------------------- when the levels read are the right ones

  /** Every visible character finds its own level at its paragraph position. */
  ghost predicate LevelsAgree(lv: seq<int>, first: int) {
    forall i {:trigger lv[i]} :: 0 <= i < |lv| && Visible(lv[i]) ==> LevelAt(lv, 0, first + i) == lv[i]
  }

  /** Nothing is dropped exactly when every entry has a level where the code looks for it. */
  lemma {:induction false} ReadInFull(lv: seq<int>, out: seq<int>)
    ensures |LevelsRead(lv, out)| == |out| <==>
      forall q {:trigger out[q]} :: 0 <= q < |out| ==> Visible(LevelAt(lv, 0, out[q]))
    ensures |LevelsRead(lv, out)| == |out| ==>
      forall q {:trigger out[q]} :: 0 <= q < |out| ==> LevelsRead(lv, out)[q] == LevelAt(lv, 0, out[q])
    decreases |out|
  {
    if out != [] {
      var pre := out[..|out| - 1];
      ReadInFull(lv, pre);
      assert forall q {:trigger out[q]} {:trigger pre[q]} :: 0 <= q < |pre| ==> out[q] == pre[q];
    }
  }

  ghost predicate Agrees(lv: seq<int>, first: int, out: seq<int>, levels: seq<int>) {
    && |out| == |levels|
    && forall q {:trigger out[q]} {:trigger levels[q]} :: 0 <= q < |out| ==> HasLevel(lv, first, out[q], levels[q])
  }

  lemma AgreesAppend(lv: seq<int>, first: int, o: seq<int>, l: seq<int>, o': seq<int>, l': seq<int>)
    requires |o| == |l| && |o'| == |l'|
    ensures Agrees(lv, first, o + o', l + l') <==> Agrees(lv, first, o, l) && Agrees(lv, first, o', l')
  {
    var x, y := o + o', l + l';
    assert forall q {:trigger o[q]} {:trigger l[q]} :: 0 <= q < |o| ==> x[q] == o[q] && y[q] == l[q];
    assert forall q {:trigger o'[q]} {:trigger l'[q]} :: 0 <= q < |o'| ==> x[|o| + q] == o'[q] && y[|o| + q] == l'[q];
    assert forall q {:trigger x[q]} {:trigger y[q]} :: |o| <= q < |x| ==> x[q] == o'[q - |o|] && y[q] == l'[q - |o|];
  }

  lemma CarriesAgrees(lv: seq<int>, first: int, run: ReorderedRun, levels: seq<int>)
    requires levels == seq(|run.indices|, _ => run.level)
    ensures Carries(lv, first, run) <==> Agrees(lv, first, run.indices, levels)
  {
  }

  lemma AllCarryLast(lv: seq<int>, first: int, runs: seq<ReorderedRun>)
    requires runs != []
    ensures var n := |runs| - 1;
            AllCarry(lv, first, runs) <==> AllCarry(lv, first, runs[..n]) && Carries(lv, first, runs[n])
  {
    var pre := runs[..|runs| - 1];
    assert forall r {:trigger runs[r]} {:trigger pre[r]} :: 0 <= r < |pre| ==> pre[r] == runs[r];
  }

  lemma {:induction false} SpreadCarries(lv: seq<int>, first: int, runs: seq<ReorderedRun>)
    ensures |Flatten(runs)| == |Spread(runs)|
    ensures AllCarry(lv, first, runs) <==> Agrees(lv, first, Flatten(runs), Spread(runs))
    decreases |runs|
  {
    if runs != [] {
      var n := |runs| - 1;
      var pre, run := runs[..n], runs[n];
      var levels := seq(|run.indices|, _ => run.level);
      SpreadCarries(lv, first, pre);
      AllCarryLast(lv, first, runs);
      CarriesAgrees(lv, first, run, levels);
      AgreesAppend(lv, first, Flatten(pre), Spread(pre), run.indices, levels);
    }
  }

  /** The runs list the visual order, each character at its own level, if and only if every visible
      character finds its level where the code looks for it. */
  lemma RunsRightIff(lv: seq<int>, first: nat, reordered: seq<int>, runs: seq<ReorderedRun>)
    requires ListsVisible(lv, first, reordered)
    requires var levels := LevelsRead(lv, reordered); CutsAsRead(levels, reordered[..|levels|], runs)
    ensures CutsByLevel(lv, first, reordered, runs) <==> LevelsAgree(lv, first)
  {
    var levels := LevelsRead(lv, reordered);
    SpreadCarries(lv, first, runs);
    ReadInFull(lv, reordered);
    AgreeEverywhere(lv, first, reordered);
    if |levels| == |reordered| {
      assert reordered[..|levels|] == reordered;
    } else {
      assert |Flatten(runs)| == |levels|;
    }
  }

  lemma AgreeEverywhere(lv: seq<int>, first: nat, out: seq<int>)
    requires ListsVisible(lv, first, out)
    ensures LevelsAgree(lv, first) <==>
      forall q {:trigger out[q]} :: 0 <= q < |out| ==> HasLevel(lv, first, out[q], LevelAt(lv, 0, out[q]))
  {
    if LevelsAgree(lv, first) {
      forall q {:trigger out[q]} | 0 <= q < |out| ensures HasLevel(lv, first, out[q], LevelAt(lv, 0, out[q])) {
        assert Visible(lv[out[q] - first]);
      }
    } else {
      var i :| 0 <= i < |lv| && Visible(lv[i]) && LevelAt(lv, 0, first + i) != lv[i];
      assert Shows(out, first, i);
      var q :| 0 <= q < |out| && out[q] == first + i;
    }
  }

  /** No visible character finds a level at all. */
  ghost predicate NothingFound(lv: seq<int>, first: int) {
    forall i {:trigger lv[i]} :: 0 <= i < |lv| && Visible(lv[i]) ==> !Visible(LevelAt(lv, 0, first + i))
  }

  lemma {:induction false} NothingRead(lv: seq<int>, first: nat, out: seq<int>)
    requires NothingFound(lv, first)
    requires forall q {:trigger out[q]} :: 0 <= q < |out| ==> 0 <= out[q] - first < |lv| && Visible(lv[out[q] - first])
    ensures LevelsRead(lv, out) == []
    decreases |out|
  {
    if out != [] {
      NothingRead(lv, first, out[..|out| - 1]);
    }
  }

  lemma NoRunsLeft(runs: seq<ReorderedRun>)
    requires CutsAsRead([], [], runs)
    ensures runs == []
  {
  }

  /** A line that starts the paragraph always agrees. */
  lemma FirstLineAgrees(lv: seq<int>)
    ensures LevelsAgree(lv, 0) && PositionsFit(lv, 0)
  {
  }

  // ---------------------------------------------------------------- runs are logically consecutive

  /** `x` and `y` are neighbours among the visible characters. */
  ghost predicate Adjacent(lv: seq<int>, x: int, y: int) {
    && 0 <= x < |lv| && 0 <= y < |lv| && x != y
    && forall z {:trigger lv[z]} :: Min(x, y) < z < Max(x, y) ==> !Visible(lv[z])
  }

  /** A character between two visual neighbours does not relate to both as they relate to each
      other. */
  lemma NothingBetween(lv: seq<int>, out: seq<int>, before: (int, int) -> bool, q: nat, z: int)
    requires ListsVisible(lv, 0, out) && OrderedBy(0, out, before) && q + 1 < |out|
    requires var x, y := Min(out[q], out[q + 1]), Max(out[q], out[q + 1]);
             x < z < y && before(x, z) == before(x, y) == before(z, y)
    ensures !Visible(lv[z])
  {
    var a, b := out[q], out[q + 1];
    assert Visible(lv[z]) ==> Shows(out, 0, z);
  }

  lemma MinimumSplit(lv: seq<int>, x: nat, z: nat, y: nat)
    requires x <= z <= y < |lv| && Visible(lv[x]) && Visible(lv[z]) && Visible(lv[y])
    ensures MinVisible(lv, x, y) == Min(MinVisible(lv, x, z), MinVisible(lv, z, y))
  {
    var a := MinVisibleAttained(lv, x, y);
    var b := MinVisibleAttained(lv, x, z);
    var c := MinVisibleAttained(lv, z, y);
    assert lv[a] == MinVisible(lv, x, y) <= lv[b] && lv[a] <= lv[c];
  }

  /** Neighbours in the visual order with the same level are neighbours in the text, in text order
      exactly when their level is even. */
  lemma SameLevelNeighbours(lv: seq<int>, out: seq<int>, q: nat)
    requires ListsVisible(lv, 0, out) && OrderedBy(0, out, EvenMinimum(lv)) && q + 1 < |out|
    requires lv[out[q]] == lv[out[q + 1]]
    ensures Adjacent(lv, out[q], out[q + 1])
    ensures out[q] < out[q + 1] <==> lv[out[q]] % 2 == 0
  {
    var x, y, level := Min(out[q], out[q + 1]), Max(out[q], out[q + 1]), lv[out[q]];
    var before := EvenMinimum(lv);
    var z := MinVisibleAttained(lv, x, y);
    if x < z < y {
      MinimumSplit(lv, x, z, y);
      NothingBetween(lv, out, before, q, z);
    }
    assert MinVisible(lv, x, y) == level;
    forall z {:trigger lv[z]} | x < z < y ensures !Visible(lv[z]) {
      if Visible(lv[z]) {
        MinimumSplit(lv, x, z, y);
        NothingBetween(lv, out, before, q, z);
      }
    }
    assert InOrder(before, out[q] - 0, out[q + 1] - 0);
  }

  lemma RunIsSlice(lv: seq<int>, out: seq<int>, runs: seq<ReorderedRun>, r: nat) returns (a: nat)
    requires Flatten(runs) == out && r < |runs|
    ensures a + |runs[r].indices| <= |out|
    ensures out[a..a + |runs[r].indices|] == runs[r].indices
    decreases |runs|
  {
    var n := |runs| - 1;
    if r == n {
      a := |Flatten(runs[..n])|;
    } else {
      a := RunIsSlice(lv, Flatten(runs[..n]), runs[..n], r);
      var m := a + |runs[r].indices|;
      assert out[a..m] == Flatten(runs[..n])[a..m];
    }
  }

  /** The indices of a run follow each other in the text, upward or downward. */
  ghost predicate Consecutive(lv: seq<int>, indices: seq<int>, ascending: bool) {
    forall k, l {:trigger indices[k], indices[l]} :: 0 <= k < l < |indices| && l == k + 1 ==>
      Adjacent(lv, indices[k], indices[l]) && (indices[k] < indices[l] <==> ascending)
  }

  lemma ConsecutiveCovers(lv: seq<int>, s: seq<int>, ascending: bool, v: int)
    requires s != [] && Consecutive(lv, s, ascending)
    requires Min(s[0], s[|s| - 1]) <= v <= Max(s[0], s[|s| - 1])
    requires 0 <= v < |lv| && Visible(lv[v])
    ensures v in s
  {
    if v != s[0] && |s| > 1 {
      var t := s[1..];
      assert Adjacent(lv, s[0], s[1]);
      assert Consecutive(lv, t, ascending) by {
        forall k, l {:trigger t[k], t[l]} | 0 <= k < l < |t| && l == k + 1
          ensures Adjacent(lv, t[k], t[l]) && (t[k] < t[l] <==> ascending)
        {
          assert t[k] == s[k + 1] && t[l] == s[l + 1];
        }
      }
      ConsecutiveEnds(lv, t, ascending);
      ConsecutiveCovers(lv, t, ascending, v);
    }
  }

  lemma ConsecutiveEnds(lv: seq<int>, s: seq<int>, ascending: bool)
    requires s != [] && Consecutive(lv, s, ascending)
    ensures forall k {:trigger s[k]} :: 0 <= k < |s| ==>
      if ascending then s[0] <= s[k] <= s[|s| - 1] else s[|s| - 1] <= s[k] <= s[0]
  {
    if |s| > 1 {
      var t := s[..|s| - 1];
      ConsecutiveEnds(lv, t, ascending);
      assert s[|s| - 2] == t[|t| - 1];
      forall k {:trigger s[k]} | 0 <= k < |s|
        ensures if ascending then s[0] <= s[k] <= s[|s| - 1] else s[|s| - 1] <= s[k] <= s[0]
      {
        if k < |t| {
          assert s[k] == t[k];
        }
      }
    }
  }

  lemma SliceConsecutive(lv: seq<int>, out: seq<int>, s: seq<int>, a: nat, level: int)
    requires ListsVisible(lv, 0, out) && OrderedBy(0, out, EvenMinimum(lv))
    requires a + |s| <= |out| && s == out[a..a + |s|]
    requires forall k {:trigger s[k]} :: 0 <= k < |s| ==> 0 <= s[k] < |lv| && lv[s[k]] == level
    ensures Consecutive(lv, s, level % 2 == 0)
  {
    forall k, l {:trigger s[k], s[l]} | 0 <= k < l < |s| && l == k + 1
      ensures Adjacent(lv, s[k], s[l]) && (s[k] < s[l] <==> level % 2 == 0)
    {
      assert s[k] == out[a + k] && s[l] == out[a + k + 1];
      SameLevelNeighbours(lv, out, a + k);
    }
  }

  lemma ConsecutiveRange(lv: seq<int>, s: seq<int>, ascending: bool, lo: int, hi: int, v: int)
    requires s != [] && Consecutive(lv, s, ascending) && Ranges(s, lo, hi)
    requires 0 <= v < |lv| && Visible(lv[v]) && lo <= v <= hi
    ensures v in s
  {
    ConsecutiveEnds(lv, s, ascending);
    ConsecutiveCovers(lv, s, ascending, v);
  }

  ghost predicate RangeIsOwn(lv: seq<int>, run: ReorderedRun) {
    forall v {:trigger v in run.indices} ::
      0 <= v < |lv| && Visible(lv[v]) ==> (run.start <= v < run.end <==> v in run.indices)
  }

  lemma ConsecutiveRangeIsOwn(lv: seq<int>, run: ReorderedRun, ascending: bool)
    requires IsShape(run) && Carries(lv, 0, run) && Consecutive(lv, run.indices, ascending)
    ensures RangeIsOwn(lv, run)
  {
    var s := run.indices;
    forall v {:trigger v in s} | 0 <= v < |lv| && Visible(lv[v])
      ensures run.start <= v < run.end <==> v in s
    {
      if run.start <= v < run.end {
        ConsecutiveRange(lv, s, ascending, run.start, run.end - 1, v);
      }
    }
  }

  /** On a line ordered by minimum parity, every run is a stretch of visible characters, listed
      upward when its level is even and downward when it is odd, and its range holds no visible
      character of another run. */
  lemma RunsAreLogicalStretches(lv: seq<int>, out: seq<int>, runs: seq<ReorderedRun>, r: nat)
    requires ListsVisible(lv, 0, out) && OrderedBy(0, out, EvenMinimum(lv))
    requires CutsByLevel(lv, 0, out, runs) && r < |runs|
    ensures Consecutive(lv, runs[r].indices, runs[r].level % 2 == 0)
    ensures RangeIsOwn(lv, runs[r])
  {
    var run := runs[r];
    assert IsShape(run) && Carries(lv, 0, run);
    var a := RunIsSlice(lv, out, runs, r);
    SliceConsecutive(lv, out, run.indices, a, run.level);
    ConsecutiveRangeIsOwn(lv, run, run.level % 2 == 0);
  }

  ghost predicate IsLogicalStretch(lv: seq<int>, run: ReorderedRun) {
    Consecutive(lv, run.indices, run.level % 2 == 0) && RangeIsOwn(lv, run)
  }

  ghost predicate LogicalStretches(lv: seq<int>, runs: seq<ReorderedRun>) {
    forall r {:trigger runs[r]} :: 0 <= r < |runs| ==> IsLogicalStretch(lv, runs[r])
  }

  // ---------------------------------------------------------------- the sentinel breaks a run

  lemma {:induction false} FirstVisibleAfter(lv: seq<int>, i: nat, j: nat) returns (z: nat)
    requires i < j < |lv| && Visible(lv[j])
    ensures i < z <= j && Visible(lv[z]) && forall x {:trigger lv[x]} :: i < x < z ==> !Visible(lv[x])
    decreases j - i
  {
    z := i + 1;
    if !Visible(lv[z]) {
      z := FirstVisibleAfter(lv, i + 1, j);
    }
  }

  /** Two visible neighbours in the text at level 126. */
  lemma SentinelNeighbours(lv: seq<int>) returns (i: nat, j: nat)
    requires LevelsInRange(lv) && SentinelHit(lv)
    ensures i < j && Adjacent(lv, i, j) && lv[i] == lv[j] == MAX_RESOLVED_LEVEL == MinVisible(lv, i, j)
  {
    var j0: nat;
    i, j0 :| i < j0 < |lv| && Visible(lv[i]) && Visible(lv[j0]) && MinVisible(lv, i, j0) == MAX_RESOLVED_LEVEL;
    j := FirstVisibleAfter(lv, i, j0);
    var k := MinVisibleAttained(lv, i, j);
  }

  /** Any other visible character stands in the same order to both neighbours. */
  lemma SameSideOfBoth(lv: seq<int>, i: nat, j: nat, z: nat, t: int)
    requires LevelsInRange(lv) && i < j && Adjacent(lv, i, j)
    requires lv[i] == lv[j] == MAX_RESOLVED_LEVEL == MinVisible(lv, i, j)
    requires z < |lv| && Visible(lv[z]) && z != i && z != j
    ensures var before := AfterPasses(lv, t);
            if z < i then before(z, i) == before(z, j) else j < z && before(i, z) == before(j, z)
  {
    if z < i {
      MinimumSplit(lv, z, i, j);
    } else if j < z {
      MinimumSplit(lv, i, j, z);
    }
  }

  lemma NothingBetweenNeighbours(lv: seq<int>, out: seq<int>, t: int, i: nat, j: nat, q: nat, r: nat)
    requires LevelsInRange(lv) && i < j && Adjacent(lv, i, j)
    requires lv[i] == lv[j] == MAX_RESOLVED_LEVEL == MinVisible(lv, i, j)
    requires ListsVisible(lv, 0, out) && OrderedBy(0, out, AfterPasses(lv, t))
    requires q < r < |out| && out[q] == j && out[r] == i
    ensures r == q + 1
  {
    if q + 1 < r {
      var z := out[q + 1];
      assert InOrder(AfterPasses(lv, t), out[q] - 0, z - 0) && InOrder(AfterPasses(lv, t), z - 0, out[r] - 0);
      SameSideOfBoth(lv, i, j, z, t);
    }
  }

  /** Where the sentinel is hit, two visual neighbours of level 126 run downward. */
  lemma SentinelInverts(lv: seq<int>, out: seq<int>) returns (q: nat)
    requires LevelsInRange(lv) && SentinelHit(lv)
    requires ListsVisible(lv, 0, out) && OrderedBy(0, out, AfterPasses(lv, LowestOdd(lv)))
    ensures q + 1 < |out| && out[q] > out[q + 1]
    ensures LevelAt(lv, 0, out[q]) == LevelAt(lv, 0, out[q + 1]) == MAX_RESOLVED_LEVEL
  {
    var i, j := SentinelNeighbours(lv);
    PassesAndParity(lv, i, j);
    assert Shows(out, 0, i) && Shows(out, 0, j);
    q :| 0 <= q < |out| && out[q] == j;
    var r :| 0 <= r < |out| && out[r] == i;
    NothingBetweenNeighbours(lv, out, LowestOdd(lv), i, j, q, r);
  }

  /** Visual neighbours of one level are neighbours in one run. */
  lemma {:induction false} NeighboursShareRun(lv: seq<int>, out: seq<int>, runs: seq<ReorderedRun>, q: nat)
    returns (r: nat, k: nat)
    requires Flatten(runs) == out && CutApart(runs) && AllCarry(lv, 0, runs) && q + 1 < |out|
    requires LevelAt(lv, 0, out[q]) == LevelAt(lv, 0, out[q + 1])
    ensures r < |runs| && k + 1 < |runs[r].indices|
    ensures runs[r].indices[k] == out[q] && runs[r].indices[k + 1] == out[q + 1]
    decreases |runs|
  {
    var n := |runs| - 1;
    var pre, last := runs[..n], runs[n];
    var m := |Flatten(pre)|;
    assert out == Flatten(pre) + last.indices;
    AllCarryLast(lv, 0, runs);
    if q + 1 < m {
      CutApartFront(runs);
      r, k := NeighboursShareRun(lv, Flatten(pre), pre, q);
    } else if m <= q {
      r, k := n, q - m;
    } else {
      BoundaryDiffers(lv, runs);
    }
  }

  lemma CutApartFront(runs: seq<ReorderedRun>)
    requires CutApart(runs) && runs != []
    ensures CutApart(runs[..|runs| - 1])
  {
    var pre := runs[..|runs| - 1];
    assert forall r {:trigger pre[r]} {:trigger runs[r]} :: 0 <= r < |pre| ==> pre[r] == runs[r];
  }

  /** The last character before a run has another level than the first one in it. */
  lemma BoundaryDiffers(lv: seq<int>, runs: seq<ReorderedRun>)
    requires CutApart(runs) && AllCarry(lv, 0, runs) && runs != []
    requires Flatten(runs[..|runs| - 1]) != []
    ensures var m := |Flatten(runs[..|runs| - 1])|;
            m < |Flatten(runs)| && LevelAt(lv, 0, Flatten(runs)[m - 1]) != LevelAt(lv, 0, Flatten(runs)[m])
  {
    var n := |runs| - 1;
    var before, last := runs[n - 1], runs[n];
    assert runs[..n][n - 1] == before;
    assert HasLevel(lv, 0, before.indices[|before.indices| - 1], before.level);
    assert HasLevel(lv, 0, last.indices[0], last.level);
    assert before.level != last.level;
  }

  /** Every run is a logical stretch if and only if the sentinel is not hit. */
  lemma StretchesIff(lv: seq<int>, out: seq<int>, runs: seq<ReorderedRun>)
    requires LevelsInRange(lv) && ListsVisible(lv, 0, out) && CutsByLevel(lv, 0, out, runs)
    requires OrderedBy(0, out, AfterPasses(lv, LowestOdd(lv)))
    ensures LogicalStretches(lv, runs) <==> !SentinelHit(lv)
  {
    if SentinelHit(lv) {
      var q := SentinelInverts(lv, out);
      var r, k := NeighboursShareRun(lv, out, runs, q);
      var s := runs[r].indices;
      assert HasLevel(lv, 0, s[k], runs[r].level);
      assert s[k] > s[k + 1] && runs[r].level % 2 == 0;
      assert !Consecutive(lv, s, true);
    } else {
      ClosedForm(lv, 0, out);
      forall r {:trigger runs[r]} | 0 <= r < |runs| ensures IsLogicalStretch(lv, runs[r]) {
        RunsAreLogicalStretches(lv, out, runs, r);
      }
    }
  }
}
