/** The whole of rules X1 to I2 on one paragraph: what happens in which order, and what it leaves. */
module Resolution {
  import opened BidiTypes
  import opened ParagraphLevels
  import opened ExplicitText
  import opened LevelRuns
  import opened Chains
  import opened TextChains
  import opened WeakTypes
  import opened ChainRules
  import opened BracketRules
  import opened Reorder
  import opened Lines
  import opened VisualOrder
  import opened VisualRuns

  datatype ParagraphDirectionHint = ForceLeftToRight | ForceRightToLeft | AutoLeftToRight | AutoRightToLeft

  function BaseLevel(hint: ParagraphDirectionHint, text: seq<BidiClass>): int {
    match hint
    case ForceLeftToRight => 0
    case ForceRightToLeft => 1
    case AutoLeftToRight => LevelOf(text, false, LTR)
    case AutoRightToLeft => LevelOf(text, false, RTL)
  }

  /** The classes of the paragraph after each rule from X8 on. */
  datatype Stages = Stages(x8: seq<BidiClass>, w1: seq<BidiClass>, w2: seq<BidiClass>, w3: seq<BidiClass>,
                           w4: seq<BidiClass>, w5: seq<BidiClass>, w6: seq<BidiClass>, w7: seq<BidiClass>,
                           n0: seq<BidiClass>, n1: seq<BidiClass>, n2: seq<BidiClass>)

  /** The intermediate results: the level runs and sequences after X10, the classes after each rule,
      and the number of chains that N0 came to. */
  datatype Trace = Trace(runs: seq<LevelRun>, upto: nat, sqs: seq<RunSequence>, stages: Stages, chains: nat)

  /** X10 */
  ghost predicate Sequencing(base: int, types: seq<BidiClass>, levels: seq<int>, runs: seq<LevelRun>, upto: nat,
                             sqs: seq<RunSequence>)
  {
    && LevelRunsOf(types, levels, runs, upto)
    && (forall r {:trigger runs[r]} :: 0 <= r < |runs| ==> HasEnds(levels, base, runs[r]))
    && SequencesOf(types, levels, runs, sqs) && Built(types, base, runs, sqs) && LensMatch(sqs)
  }

  ghost predicate RuleApplied(name: RuleName, levels: seq<int>, sqs: seq<RunSequence>, before: seq<BidiClass>,
                              after: seq<BidiClass>)
  {
    Applied(RuleOf(name), before, after, levels, sqs, |sqs|)
  }

  /** The classes go through W1 to W7. */
  ghost predicate WeakApplied(levels: seq<int>, sqs: seq<RunSequence>, c: Stages) {
    && RuleApplied(W1, levels, sqs, c.x8, c.w1) && RuleApplied(W2, levels, sqs, c.w1, c.w2)
    && RuleApplied(W3, levels, sqs, c.w2, c.w3) && RuleApplied(W4, levels, sqs, c.w3, c.w4)
    && RuleApplied(W5, levels, sqs, c.w4, c.w5) && RuleApplied(W6, levels, sqs, c.w5, c.w6)
    && RuleApplied(W7, levels, sqs, c.w6, c.w7)
  }

  /** N0; without the characters of the paragraph it does nothing. */
  ghost predicate BracketsApplied(orig: seq<BidiClass>, paragraph: seq<char>, table: BracketTable, levels: seq<int>,
                                  sqs: seq<RunSequence>, n: nat, before: seq<BidiClass>, after: seq<BidiClass>)
  {
    if paragraph == [] then after == before
    else
      && |orig| == |paragraph| && HaltsAt(before, paragraph, table, sqs, n)
      && Applied(BracketRule(orig, paragraph, table), before, after, levels, sqs, n)
  }

  ghost predicate TypesResolved(orig: seq<BidiClass>, paragraph: seq<char>, table: BracketTable, levels: seq<int>,
                                sqs: seq<RunSequence>, n: nat, c: Stages)
  {
    && WeakApplied(levels, sqs, c)
    && BracketsApplied(orig, paragraph, table, levels, sqs, n, c.w7, c.n0)
    && RuleApplied(N1, levels, sqs, c.n0, c.n1) && RuleApplied(N2, levels, sqs, c.n1, c.n2)
  }

  /** `types` and `levels` are what rules X1 to I2 make of the text, by way of `t`. */
  ghost predicate Resolves(base: int, text: seq<BidiClass>, paragraph: seq<char>, table: BracketTable, t: Trace,
                           types: seq<BidiClass>, levels: seq<int>)
  {
    var g, x := ClassesOf(base, text), LevelsOf(base, text);
    && Sequencing(base, g, x, t.runs, t.upto, t.sqs)
    && t.stages.x8 == g && t.stages.n2 == types
    && TypesResolved(text, paragraph, table, x, t.sqs, t.chains, t.stages)
    && IsImplicit(x, types, levels)
  }

  lemma StagesResolve(base: int, text: seq<BidiClass>, paragraph: seq<char>, table: BracketTable, t: Trace,
                      types: seq<BidiClass>, levels: seq<int>)
    requires Sequencing(base, ClassesOf(base, text), LevelsOf(base, text), t.runs, t.upto, t.sqs)
    requires t.stages.x8 == ClassesOf(base, text) && t.stages.n2 == types
    requires TypesResolved(text, paragraph, table, LevelsOf(base, text), t.sqs, t.chains, t.stages)
    requires IsImplicit(LevelsOf(base, text), types, levels)
    ensures Resolves(base, text, paragraph, table, t, types, levels)
  {
  }

  ghost predicate IsImplicit(x: seq<int>, types: seq<BidiClass>, levels: seq<int>) {
    && |levels| == |types| == |x|
    && forall k {:trigger levels[k]} :: 0 <= k < |levels| ==> levels[k] == ImplicitLevel(x[k], types[k])
  }

  lemma ResolvedImplicit(base: int, text: seq<BidiClass>, paragraph: seq<char>, table: BracketTable, t: Trace,
                         types: seq<BidiClass>, levels: seq<int>)
    requires Resolves(base, text, paragraph, table, t, types, levels)
    ensures IsImplicit(LevelsOf(base, text), types, levels)
  {
  }

  /** A removed character has kept its class and has no level.  A visible one has class L, R, EN or
      AN and a level from the base level to 126, odd exactly when its class is R. */
  ghost predicate ResolvedText(base: int, text: seq<BidiClass>, types: seq<BidiClass>, levels: seq<int>) {
    && |text| == |types| == |levels|
    && forall k {:trigger levels[k]} :: 0 <= k < |text| ==> ResolvedCharacter(base, text[k], types[k], levels[k])
  }

  predicate ResolvedCharacter(base: int, c: BidiClass, c': BidiClass, level: int) {
    if c.IsRemovedByX9() then level == NO_LEVEL && c' == c
    else IsResolved(c') && base <= level <= MAX_RESOLVED_LEVEL && (OddLevel(level) <==> c'.RightToLeft?)
  }

  // ---------------------------------------------------------------- from X9 to the chains

  /** After X9 exactly the removed characters have no level, as the text and the classes both say. */
  lemma ExplicitConsistent(base: int, text: seq<BidiClass>, g: seq<BidiClass>, x: seq<int>)
    requires 0 <= base <= 1 && NeverPanics(base, text) && g == ClassesOf(base, text) && x == LevelsOf(base, text)
    ensures Consistent(g, x) && Consistent(text, x)
    ensures forall k {:trigger x[k]} :: 0 <= k < |x| && Visible(x[k]) ==> base <= x[k] <= MAX_DEPTH
    ensures forall k {:trigger g[k]} :: 0 <= k < |g| && !Visible(x[k]) ==> g[k] == text[k]
  {
    forall k | 0 <= k < |text|
      ensures if text[k].IsRemovedByX9() then x[k] == NO_LEVEL && g[k] == text[k]
              else base <= x[k] <= MAX_DEPTH && !g[k].IsRemovedByX9()
    {
      ExplicitRange(base, text, k);
    }
  }

  lemma SidesAreKnown(base: int, types: seq<BidiClass>, levels: seq<int>, runs: seq<LevelRun>, upto: nat,
                      sqs: seq<RunSequence>, s: nat)
    requires Sequencing(base, types, levels, runs, upto, sqs) && s < |sqs|
    ensures SidesKnown(sqs[s])
  {
    SosMeetsX10(types, levels, base, runs, upto, sqs, s);
  }

  lemma VisibleIsChained(base: int, types: seq<BidiClass>, levels: seq<int>, runs: seq<LevelRun>, upto: nat,
                         sqs: seq<RunSequence>, k: nat)
    requires Sequencing(base, types, levels, runs, upto, sqs) && k < |levels| && Visible(levels[k])
    ensures !OutsideChains(sqs, k)
  {
    var s := VisibleInOneChain(types, levels, base, runs, upto, sqs, k);
  }

  /** The chains cover the visible characters and know their sides. */
  lemma SequencesReady(base: int, types: seq<BidiClass>, levels: seq<int>, runs: seq<LevelRun>, upto: nat,
                       sqs: seq<RunSequence>)
    requires Consistent(types, levels) && Sequencing(base, types, levels, runs, upto, sqs)
    ensures ChainsReady(types, levels, sqs)
  {
    ChainsAreDisjoint(types, levels, base, runs, upto, sqs);
    forall s {:trigger sqs[s]} | 0 <= s < |sqs| ensures SidesKnown(sqs[s]) {
      SidesAreKnown(base, types, levels, runs, upto, sqs, s);
    }
    forall k {:trigger OutsideChains(sqs, k)} | 0 <= k < |levels| && Visible(levels[k])
      ensures !OutsideChains(sqs, k)
    {
      VisibleIsChained(base, types, levels, runs, upto, sqs, k);
    }
  }

  lemma KeptAcross(a: seq<BidiClass>, levels: seq<int>, b: seq<BidiClass>, c: seq<BidiClass>)
    requires RemovedKept(a, levels, b) && RemovedKept(b, levels, c)
    ensures RemovedKept(a, levels, c)
  {
  }

  /** I1 and I2 end what the rules before have prepared. */
  lemma ImplicitResolves(base: int, text: seq<BidiClass>, g: seq<BidiClass>, x: seq<int>, types: seq<BidiClass>,
                         levels: seq<int>)
    requires 0 <= base && |text| == |x| && Consistent(text, x) && Consistent(types, x)
    requires forall k {:trigger x[k]} :: 0 <= k < |x| && Visible(x[k]) ==> base <= x[k] <= MAX_DEPTH
    requires forall k {:trigger g[k]} :: 0 <= k < |x| == |g| && !Visible(x[k]) ==> g[k] == text[k]
    requires Cleared(types, x, 10) && RemovedKept(g, x, types) && IsImplicit(x, types, levels)
    ensures ResolvedText(base, text, types, levels)
  {
  }

  lemma ResolvedSettles(base: int, text: seq<BidiClass>, types: seq<BidiClass>, levels: seq<int>)
    requires 0 <= base <= 1 && ResolvedText(base, text, types, levels)
    ensures LevelsInRange(levels) && SeparatorsVisible(text, levels)
  {
  }

  /** The runs of a line in visual order: together they list the visible characters in the order of the
      passes, cut at every change of level. */
  ghost predicate RunsMeet(lv: seq<int>, first: nat, runs: seq<ReorderedRun>) {
    var out := Flatten(runs);
    && CutsByLevel(lv, first, out, runs)
    && ListsVisible(lv, first, out) && OrderedBy(first, out, AfterPasses(lv, LowestOdd(lv)))
  }

  /** No other list of runs than the one from the visual order can meet this. */
  lemma RunsMeetIff(lv: seq<int>, first: nat, reordered: seq<int>, runs: seq<ReorderedRun>)
    requires ListsVisible(lv, first, reordered) && OrderedBy(first, reordered, AfterPasses(lv, LowestOdd(lv)))
    ensures RunsMeet(lv, first, runs) <==> CutsByLevel(lv, first, reordered, runs)
  {
    if RunsMeet(lv, first, runs) {
      OrderUnique(lv, first, Flatten(runs), reordered, AfterPasses(lv, LowestOdd(lv)));
    }
  }

  // ---------------------------------------------------------------- classes that no rule changes

  predicate IsSteady(c: BidiClass) {
    c.LeftToRight? || c.RightToLeft? || c.ArabicNumber?
  }

  lemma SteadyAt(name: RuleName, g: seq<BidiClass>, lv: seq<int>, sq: RunSequence, k: nat)
    requires k < |g| == |lv| && IsSteady(g[k])
    ensures RuleAt(name, g, lv, sq, k) == g[k]
  {
  }

  /** One rule on the paragraph: what it keeps, and the class at `k`. */
  lemma RuleKeepsSteady(name: RuleName, before: seq<BidiClass>, after: seq<BidiClass>, levels: seq<int>,
                        sqs: seq<RunSequence>, k: nat)
    requires ChainsReady(before, levels, sqs) && Cleared(before, levels, Rank(name) - 1)
    requires RuleApplied(name, levels, sqs, before, after)
    requires k < |levels| && Visible(levels[k]) && IsSteady(before[k])
    ensures ChainsReady(after, levels, sqs) && Cleared(after, levels, Rank(name)) && after[k] == before[k]
  {
    RuleClearsAll(name, before, after, levels, sqs);
    assert !OutsideChains(sqs, k);
    var s :| 0 <= s < |sqs| && k in sqs[s].indices;
    var idx := sqs[s].indices;
    var j :| 0 <= j < |idx| && idx[j] == k;
    var g, lv := Gather(before, idx), Gather(levels, idx);
    ApplyRuleIsResult(name, g, lv, sqs[s]);
    SteadyAt(name, g, lv, sqs[s], j);
    assert Gather(after, idx) == RuleOn(RuleOf(name), before, levels, sqs, s);
    assert Gather(after, idx)[j] == RuleAt(name, g, lv, sqs[s], j);
  }

  lemma SteadyResolves(levels: seq<int>, sqs: seq<RunSequence>, c: Stages, k: nat)
    requires ChainsReady(c.x8, levels, sqs) && WeakApplied(levels, sqs, c) && c.n0 == c.w7
    requires RuleApplied(N1, levels, sqs, c.n0, c.n1) && RuleApplied(N2, levels, sqs, c.n1, c.n2)
    requires k < |levels| && Visible(levels[k]) && IsSteady(c.x8[k])
    ensures k < |c.n2| && c.n2[k] == c.x8[k]
  {
    RuleKeepsSteady(W1, c.x8, c.w1, levels, sqs, k);
    RuleKeepsSteady(W2, c.w1, c.w2, levels, sqs, k);
    RuleKeepsSteady(W3, c.w2, c.w3, levels, sqs, k);
    RuleKeepsSteady(W4, c.w3, c.w4, levels, sqs, k);
    RuleKeepsSteady(W5, c.w4, c.w5, levels, sqs, k);
    RuleKeepsSteady(W6, c.w5, c.w6, levels, sqs, k);
    RuleKeepsSteady(W7, c.w6, c.w7, levels, sqs, k);
    RuleKeepsSteady(N1, c.n0, c.n1, levels, sqs, k);
    RuleKeepsSteady(N2, c.n1, c.n2, levels, sqs, k);
  }

  /** Without bracket characters a visible L, R or AN goes through all rules unchanged. */
  lemma SteadyCharacter(base: int, text: seq<BidiClass>, table: BracketTable, t: Trace, types: seq<BidiClass>,
                        levels: seq<int>, k: nat)
    requires 0 <= base <= 1 && NeverPanics(base, text) && Resolves(base, text, [], table, t, types, levels)
    requires k < |text| && Visible(LevelsOf(base, text)[k]) && IsSteady(ClassesOf(base, text)[k])
    ensures |types| == |levels| == |text| && types[k] == ClassesOf(base, text)[k]
    ensures levels[k] == ImplicitLevel(LevelsOf(base, text)[k], types[k])
  {
    var g, x := ClassesOf(base, text), LevelsOf(base, text);
    ExplicitConsistent(base, text, g, x);
    SequencesReady(base, g, x, t.runs, t.upto, t.sqs);
    SteadyResolves(x, t.sqs, t.stages, k);
  }
}
