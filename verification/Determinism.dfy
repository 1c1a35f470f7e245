/** The rules leave no choice: text and base level determine runs, sequences, classes and levels. */
module Determinism {
  import opened BidiTypes
  import opened ExplicitText
  import opened LevelRuns
  import opened Chains
  import opened TextChains
  import opened ChainRules
  import opened BracketRules
  import opened Resolution

  // ---------------------------------------------------------------- level runs

  lemma SpanVisible(types: seq<BidiClass>, levels: seq<int>, start: nat, end: nat, level: int) returns (k: nat)
    requires IsSpan(types, levels, start, end, level) && Visible(level)
    ensures start <= k < end && levels[k] == level
  {
    var slice := levels[start..end];
    var q :| 0 <= q < |slice| && slice[q] == level;
    k := start + q;
  }

  lemma SpanEnds(types: seq<BidiClass>, levels: seq<int>, start: nat, end: nat, level: int, end': nat, level': int)
    requires IsSpan(types, levels, start, end, level) && IsSpan(types, levels, start, end', level')
    requires Visible(level) && Visible(level')
    ensures end' <= end && (end' == end ==> level' == level)
  {
    var k := SpanVisible(types, levels, start, end, level);
    var next := if end < |types| then levels[end] else level;
    var closed := VisibleInit(types, levels, end - 1);
  }

  lemma SpanUnique(types: seq<BidiClass>, levels: seq<int>, start: nat, end: nat, level: int, end': nat, level': int)
    requires IsSpan(types, levels, start, end, level) && IsSpan(types, levels, start, end', level')
    requires Visible(level) && Visible(level')
    ensures end == end' && level == level'
  {
    SpanEnds(types, levels, start, end, level, end', level');
    SpanEnds(types, levels, start, end', level', end, level);
  }

  /** The same run but for its ends and the number of its sequence. */
  predicate SameStretch(a: LevelRun, b: LevelRun) {
    a.start == b.start && a.end == b.end && a.len == b.len && a.level == b.level
  }

  lemma {:induction false} RunUnique(types: seq<BidiClass>, levels: seq<int>, a: seq<LevelRun>, m: nat,
                                     b: seq<LevelRun>, n: nat, r: nat)
    requires Tiles(types, levels, a, m) && Tiles(types, levels, b, n) && r < |a| && r < |b|
    ensures SameStretch(a[r], b[r])
    decreases r
  {
    if 0 < r {
      RunUnique(types, levels, a, m, b, n, r - 1);
      assert a[r - 1].end == a[r].start && b[r - 1].end == b[r].start;
    }
    SpanUnique(types, levels, a[r].start, a[r].end, a[r].level, b[r].end, b[r].level);
  }

  lemma NoMoreRuns(types: seq<BidiClass>, levels: seq<int>, a: seq<LevelRun>, m: nat, b: seq<LevelRun>, n: nat)
    requires LevelRunsOf(types, levels, a, m) && Tiles(types, levels, b, n)
    ensures |b| <= |a|
  {
    if |a| < |b| {
      var run := b[|a|];
      if a != [] {
        RunUnique(types, levels, a, m, b, n, |a| - 1);
        assert b[|a| - 1].end == run.start;
      }
      var k := SpanVisible(types, levels, run.start, run.end, run.level);
    }
  }

  /** Two lists of level runs of one text differ at most in the numbers of their sequences. */
  ghost predicate SameButIds(a: seq<LevelRun>, b: seq<LevelRun>) {
    && |a| == |b|
    && forall r {:trigger a[r]} {:trigger b[r]} :: 0 <= r < |a| ==> b[r] == a[r].(seqId := b[r].seqId)
  }

  lemma LevelRunsUnique(types: seq<BidiClass>, levels: seq<int>, base: int, a: seq<LevelRun>, m: nat,
                        b: seq<LevelRun>, n: nat)
    requires LevelRunsOf(types, levels, a, m) && LevelRunsOf(types, levels, b, n)
    requires forall r {:trigger a[r]} :: 0 <= r < |a| ==> HasEnds(levels, base, a[r])
    requires forall r {:trigger b[r]} :: 0 <= r < |b| ==> HasEnds(levels, base, b[r])
    ensures SameButIds(a, b)
  {
    NoMoreRuns(types, levels, a, m, b, n);
    NoMoreRuns(types, levels, b, n, a, m);
    forall r {:trigger a[r]} {:trigger b[r]} | 0 <= r < |a| ensures b[r] == a[r].(seqId := b[r].seqId) {
      RunUnique(types, levels, a, m, b, n, r);
    }
  }

  // ---------------------------------------------------------------- sequences

  /** The first `s` sequences have the same runs. */
  ghost predicate SameIdsTo(a: seq<LevelRun>, b: seq<LevelRun>, s: nat) {
    forall r {:trigger a[r]} {:trigger b[r]} :: 0 <= r < |a| && r < |b| ==>
      (1 <= a[r].seqId <= s || 1 <= b[r].seqId <= s ==> a[r].seqId == b[r].seqId)
  }

  /** A run that could go on with the sequence and is free does not stand before the one that does. */
  lemma FreeIsLater(types: seq<BidiClass>, levels: seq<int>, a: seq<LevelRun>, level: int, s: nat,
                    lo: nat, hi: nat, r: nat)
    requires WellPlaced(types, levels, a) && hi <= |a| && lo <= r < |a|
    requires TakenBetween(types, levels, a, level, s, lo, hi)
    requires a[r].level == level && StartsWithPdi(types, levels, a[r]) && !(1 <= a[r].seqId <= s)
    ensures hi <= r
  {
  }

  ghost predicate BothLinked(types: seq<BidiClass>, levels: seq<int>, a: seq<LevelRun>, x: RunSequence,
                             b: seq<LevelRun>, y: RunSequence, s: nat)
  {
    && WellPlaced(types, levels, a) && WellPlaced(types, levels, b) && SameButIds(a, b) && SameIdsTo(a, b, s)
    && Linked(types, levels, a, x, s) && Linked(types, levels, b, y, s)
    && Finished(types, levels, a, x, s) && Finished(types, levels, b, y, s)
  }

  lemma StillFree(types: seq<BidiClass>, levels: seq<int>, a: seq<LevelRun>, x: RunSequence, b: seq<LevelRun>,
                  y: RunSequence, s: nat, p: nat)
    requires BothLinked(types, levels, a, x, b, y, s) && p < |y.runs|
    ensures y.runs[p] < |a| && !(1 <= a[y.runs[p]].seqId <= s)
  {
    assert b[y.runs[p]].seqId == s + 1;
  }

  lemma NextNotEarlier(types: seq<BidiClass>, levels: seq<int>, a: seq<LevelRun>, x: RunSequence, b: seq<LevelRun>,
                       y: RunSequence, s: nat, p: nat)
    requires BothLinked(types, levels, a, x, b, y, s) && x.level == y.level
    requires p < |x.runs| && p < |y.runs|
    requires 0 < p ==> x.runs[p - 1] == y.runs[p - 1]
    ensures x.runs[p] <= y.runs[p]
  {
    StillFree(types, levels, a, x, b, y, s, p);
    if 0 < p {
      assert x.runs[p - 1] < x.runs[p] && y.runs[p - 1] < y.runs[p];
      FreeIsLater(types, levels, a, x.level, s, x.runs[p - 1] + 1, x.runs[p], y.runs[p]);
    }
  }

  lemma FirstRunsAgree(types: seq<BidiClass>, levels: seq<int>, a: seq<LevelRun>, x: RunSequence, b: seq<LevelRun>,
                       y: RunSequence, s: nat)
    requires BothLinked(types, levels, a, x, b, y, s)
    ensures x.runs[0] == y.runs[0] && x.level == y.level
  {
    StillFree(types, levels, a, x, b, y, s, 0);
    StillFree(types, levels, b, y, a, x, s, 0);
  }

  lemma {:induction false} ElementsAgree(types: seq<BidiClass>, levels: seq<int>, a: seq<LevelRun>, x: RunSequence,
                                         b: seq<LevelRun>, y: RunSequence, s: nat, p: nat)
    requires BothLinked(types, levels, a, x, b, y, s) && p < |x.runs| && p < |y.runs|
    ensures x.runs[p] == y.runs[p] && x.level == y.level
    decreases p
  {
    FirstRunsAgree(types, levels, a, x, b, y, s);
    if 0 < p {
      ElementsAgree(types, levels, a, x, b, y, s, p - 1);
      NextNotEarlier(types, levels, a, x, b, y, s, p);
      NextNotEarlier(types, levels, b, y, a, x, s, p);
    }
  }

  lemma NotLonger(types: seq<BidiClass>, levels: seq<int>, a: seq<LevelRun>, x: RunSequence, b: seq<LevelRun>,
                  y: RunSequence, s: nat)
    requires BothLinked(types, levels, a, x, b, y, s)
    ensures |y.runs| <= |x.runs|
  {
    var n := |x.runs|;
    var c := x.runs[n - 1];
    assert EndsWithInit(types, a[c]) ==> TakenBetween(types, levels, a, x.level, s, c + 1, |a|);
    if n < |y.runs| {
      ElementsAgree(types, levels, a, x, b, y, s, n - 1);
      StillFree(types, levels, a, x, b, y, s, n);
    }
  }

  lemma SequenceUnique(types: seq<BidiClass>, levels: seq<int>, a: seq<LevelRun>, x: RunSequence, b: seq<LevelRun>,
                       y: RunSequence, s: nat)
    requires BothLinked(types, levels, a, x, b, y, s)
    ensures x.runs == y.runs && x.level == y.level
  {
    NotLonger(types, levels, a, x, b, y, s);
    NotLonger(types, levels, b, y, a, x, s);
    FirstRunsAgree(types, levels, a, x, b, y, s);
    forall p {:trigger x.runs[p]} | 0 <= p < |x.runs| ensures x.runs[p] == y.runs[p] {
      ElementsAgree(types, levels, a, x, b, y, s, p);
    }
  }

  lemma IdsAgreeNext(types: seq<BidiClass>, levels: seq<int>, a: seq<LevelRun>, xs: seq<RunSequence>,
                     b: seq<LevelRun>, ys: seq<RunSequence>, s: nat)
    requires SequencesOf(types, levels, a, xs) && SequencesOf(types, levels, b, ys)
    requires SameButIds(a, b) && SameIdsTo(a, b, s) && s < |xs| && s < |ys| && xs[s].runs == ys[s].runs
    ensures SameIdsTo(a, b, s + 1)
  {
    assert Linked(types, levels, a, xs[s], s) && Linked(types, levels, b, ys[s], s);
    forall r {:trigger a[r]} {:trigger b[r]} | 0 <= r < |a|
      ensures 1 <= a[r].seqId <= s + 1 || 1 <= b[r].seqId <= s + 1 ==> a[r].seqId == b[r].seqId
    {
      assert a[r].seqId == s + 1 <==> r in xs[s].runs;
      assert b[r].seqId == s + 1 <==> r in ys[s].runs;
    }
  }

  lemma LinkedAlike(types: seq<BidiClass>, levels: seq<int>, a: seq<LevelRun>, xs: seq<RunSequence>,
                    b: seq<LevelRun>, ys: seq<RunSequence>, s: nat)
    requires SequencesOf(types, levels, a, xs) && SequencesOf(types, levels, b, ys)
    requires SameButIds(a, b) && SameIdsTo(a, b, s) && s < |xs| && s < |ys|
    ensures BothLinked(types, levels, a, xs[s], b, ys[s], s)
  {
  }

  ghost predicate SameLists(xs: seq<RunSequence>, ys: seq<RunSequence>, n: nat) {
    && n <= |xs| && n <= |ys|
    && forall t {:trigger xs[t]} {:trigger ys[t]} :: 0 <= t < n ==>
         xs[t].runs == ys[t].runs && xs[t].level == ys[t].level
  }

  lemma {:induction false} SequencesUnique(types: seq<BidiClass>, levels: seq<int>, a: seq<LevelRun>,
                                           xs: seq<RunSequence>, b: seq<LevelRun>, ys: seq<RunSequence>, s: nat)
    requires SequencesOf(types, levels, a, xs) && SequencesOf(types, levels, b, ys) && SameButIds(a, b)
    requires s <= |xs| && s <= |ys|
    ensures SameIdsTo(a, b, s) && SameLists(xs, ys, s)
    decreases s
  {
    if 0 < s {
      SequencesUnique(types, levels, a, xs, b, ys, s - 1);
      LinkedAlike(types, levels, a, xs, b, ys, s - 1);
      SequenceUnique(types, levels, a, xs[s - 1], b, ys[s - 1], s - 1);
      IdsAgreeNext(types, levels, a, xs, b, ys, s - 1);
    }
  }

  lemma AllIdsAgree(types: seq<BidiClass>, levels: seq<int>, a: seq<LevelRun>, xs: seq<RunSequence>, b: seq<LevelRun>)
    requires SequencesOf(types, levels, a, xs) && SameButIds(a, b) && SameIdsTo(a, b, |xs|)
    ensures a == b
  {
    forall r {:trigger a[r]} {:trigger b[r]} | 0 <= r < |a| ensures a[r] == b[r] {
      assert 1 <= a[r].seqId <= |xs|;
    }
  }

  lemma NoMoreSequences(types: seq<BidiClass>, levels: seq<int>, a: seq<LevelRun>, xs: seq<RunSequence>,
                        b: seq<LevelRun>, ys: seq<RunSequence>)
    requires SequencesOf(types, levels, a, xs) && SequencesOf(types, levels, b, ys) && SameButIds(a, b)
    ensures |ys| <= |xs|
  {
    var s := |xs|;
    if s < |ys| {
      var r := FirstRunOf(types, levels, b, ys, s);
      SequencesUnique(types, levels, a, xs, b, ys, s);
      AllIdsAgree(types, levels, a, xs, b);
    }
  }

  lemma FirstRunOf(types: seq<BidiClass>, levels: seq<int>, b: seq<LevelRun>, ys: seq<RunSequence>, s: nat)
    returns (r: nat)
    requires SequencesOf(types, levels, b, ys) && s < |ys|
    ensures r < |b| && b[r].seqId == s + 1
  {
    assert Linked(types, levels, b, ys[s], s);
    r := ys[s].runs[0];
  }

  /** X10 has one outcome. */
  lemma SequencingUnique(base: int, types: seq<BidiClass>, levels: seq<int>, a: seq<LevelRun>, m: nat,
                         xs: seq<RunSequence>, b: seq<LevelRun>, n: nat, ys: seq<RunSequence>)
    requires Sequencing(base, types, levels, a, m, xs) && Sequencing(base, types, levels, b, n, ys)
    ensures a == b && xs == ys
  {
    LevelRunsUnique(types, levels, base, a, m, b, n);
    NoMoreSequences(types, levels, a, xs, b, ys);
    NoMoreSequences(types, levels, b, ys, a, xs);
    SequencesUnique(types, levels, a, xs, b, ys, |xs|);
    AllIdsAgree(types, levels, a, xs, b);
    BuiltUnique(types, base, a, xs, ys);
  }

  lemma BuiltUnique(types: seq<BidiClass>, base: int, runs: seq<LevelRun>, xs: seq<RunSequence>, ys: seq<RunSequence>)
    requires Built(types, base, runs, xs) && LensMatch(xs) && Built(types, base, runs, ys) && LensMatch(ys)
    requires |xs| == |ys| && SameLists(xs, ys, |xs|)
    ensures xs == ys
  {
    forall s {:trigger xs[s]} {:trigger ys[s]} | 0 <= s < |xs| ensures xs[s] == ys[s] {
      SameBuilt(types, base, runs, xs[s], ys[s]);
    }
  }

  lemma SameBuilt(types: seq<BidiClass>, base: int, runs: seq<LevelRun>, x: RunSequence, y: RunSequence)
    requires x.runs == y.runs && x.level == y.level && RunsExist(runs, x.runs)
    requires x.indices == ChainIndices(runs, x.runs) == y.indices && x.len == |x.indices| && y.len == |y.indices|
    requires HasSides(types, base, runs, x) && HasSides(types, base, runs, y)
    ensures x == y
  {
  }

  // ---------------------------------------------------------------- rules

  /** A rule on chains has one outcome. */
  lemma AppliedUnique(rule: Rule, before: seq<BidiClass>, a: seq<BidiClass>, b: seq<BidiClass>, levels: seq<int>,
                      sqs: seq<RunSequence>, n: nat)
    requires Applied(rule, before, a, levels, sqs, n) && Applied(rule, before, b, levels, sqs, n)
    ensures a == b
  {
    forall s {:trigger sqs[s]} | 0 <= s < |sqs| ensures Gather(a, sqs[s].indices) == Gather(b, sqs[s].indices) {
      assert s < n ==> Gather(a, sqs[s].indices) == RuleOn(rule, before, levels, sqs, s);
    }
    SameByChains(a, b, sqs);
  }

  lemma HaltUnique(before: seq<BidiClass>, text: seq<char>, table: BracketTable, sqs: seq<RunSequence>, m: nat, n: nat)
    requires HaltsAt(before, text, table, sqs, m) && HaltsAt(before, text, table, sqs, n)
    ensures m == n
  {
  }

  lemma BracketsUnique(orig: seq<BidiClass>, paragraph: seq<char>, table: BracketTable, levels: seq<int>,
                       sqs: seq<RunSequence>, m: nat, n: nat, before: seq<BidiClass>, a: seq<BidiClass>,
                       b: seq<BidiClass>)
    requires BracketsApplied(orig, paragraph, table, levels, sqs, m, before, a)
    requires BracketsApplied(orig, paragraph, table, levels, sqs, n, before, b)
    ensures a == b
  {
    if paragraph != [] {
      HaltUnique(before, paragraph, table, sqs, m, n);
      AppliedUnique(BracketRule(orig, paragraph, table), before, a, b, levels, sqs, n);
    }
  }

  lemma RuleUnique(name: RuleName, levels: seq<int>, sqs: seq<RunSequence>, before: seq<BidiClass>,
                   a: seq<BidiClass>, b: seq<BidiClass>)
    requires RuleApplied(name, levels, sqs, before, a) && RuleApplied(name, levels, sqs, before, b)
    ensures a == b
  {
    AppliedUnique(RuleOf(name), before, a, b, levels, sqs, |sqs|);
  }

  lemma WeakUnique(levels: seq<int>, sqs: seq<RunSequence>, c: Stages, d: Stages)
    requires c.x8 == d.x8 && WeakApplied(levels, sqs, c) && WeakApplied(levels, sqs, d)
    ensures c.w7 == d.w7
  {
    RuleUnique(W1, levels, sqs, c.x8, c.w1, d.w1);
    RuleUnique(W2, levels, sqs, c.w1, c.w2, d.w2);
    RuleUnique(W3, levels, sqs, c.w2, c.w3, d.w3);
    RuleUnique(W4, levels, sqs, c.w3, c.w4, d.w4);
    RuleUnique(W5, levels, sqs, c.w4, c.w5, d.w5);
    RuleUnique(W6, levels, sqs, c.w5, c.w6, d.w6);
    RuleUnique(W7, levels, sqs, c.w6, c.w7, d.w7);
  }

  lemma TypesUnique(orig: seq<BidiClass>, paragraph: seq<char>, table: BracketTable, levels: seq<int>,
                    sqs: seq<RunSequence>, m: nat, c: Stages, n: nat, d: Stages)
    requires c.x8 == d.x8
    requires TypesResolved(orig, paragraph, table, levels, sqs, m, c)
    requires TypesResolved(orig, paragraph, table, levels, sqs, n, d)
    ensures c.n2 == d.n2
  {
    WeakUnique(levels, sqs, c, d);
    BracketsUnique(orig, paragraph, table, levels, sqs, m, n, c.w7, c.n0, d.n0);
    RuleUnique(N1, levels, sqs, c.n0, c.n1, d.n1);
    RuleUnique(N2, levels, sqs, c.n1, c.n2, d.n2);
  }

  /** Text, characters, bracket table and base level determine the final classes and levels, whatever the
      way to them. */
  lemma ResolvesUnique(base: int, text: seq<BidiClass>, paragraph: seq<char>, table: BracketTable,
                       t: Trace, types: seq<BidiClass>, levels: seq<int>,
                       t': Trace, types': seq<BidiClass>, levels': seq<int>)
    requires Resolves(base, text, paragraph, table, t, types, levels)
    requires Resolves(base, text, paragraph, table, t', types', levels')
    ensures types == types' && levels == levels' && t.sqs == t'.sqs
  {
    var g, x := ClassesOf(base, text), LevelsOf(base, text);
    SequencingUnique(base, g, x, t.runs, t.upto, t.sqs, t'.runs, t'.upto, t'.sqs);
    TypesUnique(text, paragraph, table, x, t.sqs, t.chains, t.stages, t'.chains, t'.stages);
    ImplicitUnique(x, types, levels, levels');
  }

  lemma ImplicitUnique(x: seq<int>, types: seq<BidiClass>, a: seq<int>, b: seq<int>)
    requires IsImplicit(x, types, a) && IsImplicit(x, types, b)
    ensures a == b
  {
  }
}
