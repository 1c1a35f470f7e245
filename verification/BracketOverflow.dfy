/** Rule N0 after an overflow of the bracket stack: when ending it for all chains that are left makes
    no difference, and a paragraph where it does. */
module BracketOverflow {
  import opened Options
  import opened BidiTypes
  import opened LevelStacks
  import opened ExplicitLevels
  import opened ExplicitText
  import opened LevelRuns
  import opened Chains
  import opened TextChains
  import opened Neutrals
  import opened Brackets
  import opened ChainRules
  import opened BracketRules
  import opened Resolution
  import opened Determinism

  /** N0 as the comment on it asks: an overflow ends the rule for the chain at hand only, which stays as it is.
      UAX #9 has it resolve the pairs found before the overflow, see `OverflowingChains`. */
  ghost function PerChainRule(orig: seq<BidiClass>, text: seq<char>, table: BracketTable): Rule
    requires |orig| == |text|
  {
    (g: seq<BidiClass>, lv: seq<int>, sq: RunSequence) =>
      if InBounds(sq.indices, |text|) && |g| == |lv| == |sq.indices|
         && !Overflows(Gather(text, sq.indices), g, table, |sq.indices|)
      then ResolveBrackets(g, Gather(text, sq.indices), Gather(orig, sq.indices), lv, sq, table)
      else g
  }

  lemma PerChainValue(orig: seq<BidiClass>, before: seq<BidiClass>, text: seq<char>, table: BracketTable,
                      levels: seq<int>, sqs: seq<RunSequence>, s: nat)
    requires |orig| == |text| == |before| == |levels| && s < |sqs| && InBounds(sqs[s].indices, |text|)
    ensures RuleOn(PerChainRule(orig, text, table), before, levels, sqs, s) ==
      if ChainOverflows(before, text, table, sqs[s].indices) then Gather(before, sqs[s].indices)
      else RuleOn(BracketRule(orig, text, table), before, levels, sqs, s)
  {
  }

  /** Chain `s` has nothing to lose: it overflows too, or the rule does not change it. */
  ghost predicate NothingToLose(orig: seq<BidiClass>, before: seq<BidiClass>, text: seq<char>, table: BracketTable,
                                levels: seq<int>, sqs: seq<RunSequence>, s: nat)
    requires |orig| == |text| == |before| == |levels| && s < |sqs| && InBounds(sqs[s].indices, |text|)
  {
    || ChainOverflows(before, text, table, sqs[s].indices)
    || RuleOn(BracketRule(orig, text, table), before, levels, sqs, s) == Gather(before, sqs[s].indices)
  }

  lemma AppliedValue(rule: Rule, before: seq<BidiClass>, after: seq<BidiClass>, levels: seq<int>,
                     sqs: seq<RunSequence>, n: nat, s: nat)
    requires Applied(rule, before, after, levels, sqs, n) && s < |sqs|
    ensures Gather(after, sqs[s].indices) ==
      if s < n then RuleOn(rule, before, levels, sqs, s) else Gather(before, sqs[s].indices)
  {
    assert s < n ==> Gather(after, sqs[s].indices) == RuleOn(rule, before, levels, sqs, s);
  }

  lemma SameOnChainIff(orig: seq<BidiClass>, before: seq<BidiClass>, text: seq<char>, table: BracketTable,
                       levels: seq<int>, sqs: seq<RunSequence>, n: nat, a: seq<BidiClass>, b: seq<BidiClass>, s: nat)
    requires |orig| == |text| && HaltsAt(before, text, table, sqs, n) && s < |sqs|
    requires Applied(BracketRule(orig, text, table), before, a, levels, sqs, n)
    requires Applied(PerChainRule(orig, text, table), before, b, levels, sqs, |sqs|)
    ensures Gather(a, sqs[s].indices) == Gather(b, sqs[s].indices)
      <==> (n < s ==> NothingToLose(orig, before, text, table, levels, sqs, s))
  {
    var rule, perChain := BracketRule(orig, text, table), PerChainRule(orig, text, table);
    AppliedValue(rule, before, a, levels, sqs, n, s);
    AppliedValue(perChain, before, b, levels, sqs, |sqs|, s);
    PerChainValue(orig, before, text, table, levels, sqs, s);
    assert s < n ==> !ChainOverflows(before, text, table, sqs[s].indices);
  }

  /** The result is that of N0 on every chain that does not overflow, if and only if every chain after
      the first that overflows has nothing to lose. */
  lemma OverflowHarmlessIff(orig: seq<BidiClass>, before: seq<BidiClass>, text: seq<char>, table: BracketTable,
                            levels: seq<int>, sqs: seq<RunSequence>, n: nat, a: seq<BidiClass>, b: seq<BidiClass>)
    requires |orig| == |text| && HaltsAt(before, text, table, sqs, n)
    requires Applied(BracketRule(orig, text, table), before, a, levels, sqs, n)
    requires Applied(PerChainRule(orig, text, table), before, b, levels, sqs, |sqs|)
    ensures a == b <==>
      forall s {:trigger NothingToLose(orig, before, text, table, levels, sqs, s)} :: n < s < |sqs| ==>
        NothingToLose(orig, before, text, table, levels, sqs, s)
  {
    forall s {:trigger sqs[s]} {:trigger NothingToLose(orig, before, text, table, levels, sqs, s)} | 0 <= s < |sqs|
      ensures Gather(a, sqs[s].indices) == Gather(b, sqs[s].indices)
        <==> (n < s ==> NothingToLose(orig, before, text, table, levels, sqs, s))
    {
      SameOnChainIff(orig, before, text, table, levels, sqs, n, a, b, s);
    }
    if forall s {:trigger sqs[s]} :: 0 <= s < |sqs| ==> Gather(a, sqs[s].indices) == Gather(b, sqs[s].indices) {
      SameByChains(a, b, sqs);
    }
  }

  // ---------------------------------------------------------------- a paragraph where it matters

  /** The place of the embedding in the paragraph below. */
  const CROWD := MAX_PAIRING_DEPTH + 1

  /** 64 opening brackets, an embedding, and in it a bracket pair around one letter and before another. */
  function CrowdedText(): seq<BidiClass> {
    seq(CROWD, _ => OtherNeutral) + [RightToLeftEmbedding, OtherNeutral, LeftToRight, OtherNeutral, LeftToRight]
  }

  function CrowdedChars(): seq<char> {
    seq(CROWD, _ => '(') + ['\U{202B}', '(', 'a', ')', 'b']
  }

  ghost predicate KnowsParentheses(table: BracketTable) {
    table('(') == Some(Bracket(')', Open)) && table(')') == Some(Bracket('(', Close))
  }

  /** What of the paragraph matters. */
  ghost predicate IsCrowded(text: seq<BidiClass>, chars: seq<char>) {
    && |text| == |chars| == CROWD + 5
    && (forall k {:trigger text[k]} :: 0 <= k < CROWD ==> text[k].OtherNeutral?)
    && (forall k {:trigger chars[k]} :: 0 <= k < CROWD ==> chars[k] == '(')
    && text[CROWD] == RightToLeftEmbedding && text[CROWD + 1] == text[CROWD + 3] == OtherNeutral
    && text[CROWD + 2] == text[CROWD + 4] == LeftToRight
    && chars[CROWD + 1] == '(' && chars[CROWD + 3] == ')'
  }

  lemma CrowdedIsCrowded()
    ensures IsCrowded(CrowdedText(), CrowdedChars())
  {
  }

  function InEmbedding(): XState {
    Active([StackEntry(0, NeutralOverride, false), StackEntry(1, NeutralOverride, false)], 0, 0, 0)
  }

  lemma EmbeddingOpens()
    ensures Step(Initial(0), RightToLeftEmbedding) == InEmbedding()
  {
  }

  lemma OthersStay(s: XState, c: BidiClass)
    requires s.Nonempty() && (c.OtherNeutral? || c.LeftToRight?)
    ensures Step(s, c) == s
  {
  }

  lemma CrowdedSymbol(text: seq<BidiClass>, chars: seq<char>, k: nat)
    requires IsCrowded(text, chars) && k < |text|
    ensures SymbolAt(text, k) == text[k]
    ensures if k == CROWD then text[k] == RightToLeftEmbedding else text[k].OtherNeutral? || text[k].LeftToRight?
  {
  }

  lemma CrowdedState(text: seq<BidiClass>, chars: seq<char>, k: nat)
    requires IsCrowded(text, chars) && k <= |text|
    ensures StateAt(0, text, k) == if k <= CROWD then Initial(0) else InEmbedding()
    decreases k
  {
    if k == 0 {
      assert Symbols(text)[..0] == [];
    } else {
      CrowdedState(text, chars, k - 1);
      StateStep(0, text, k - 1);
      CrowdedSymbol(text, chars, k - 1);
      if k - 1 == CROWD {
        EmbeddingOpens();
      } else {
        OthersStay(StateAt(0, text, k - 1), text[k - 1]);
      }
    }
  }

  ghost predicate CrowdedLevels(x: seq<int>) {
    && |x| == CROWD + 5
    && forall k {:trigger x[k]} :: 0 <= k < |x| ==> x[k] == if k < CROWD then 0 else if k == CROWD then NO_LEVEL else 1
  }

  lemma CrowdedExplicit(text: seq<BidiClass>, chars: seq<char>)
    requires IsCrowded(text, chars)
    ensures ClassesOf(0, text) == text && CrowdedLevels(LevelsOf(0, text))
  {
    var g, x := ClassesOf(0, text), LevelsOf(0, text);
    forall k {:trigger x[k]} {:trigger g[k]} | 0 <= k < |text|
      ensures g[k] == text[k] && x[k] == if k < CROWD then 0 else if k == CROWD then NO_LEVEL else 1
    {
      CrowdedState(text, chars, k);
      CrowdedSymbol(text, chars, k);
      assert x[k] == LevelIn(0, StateAt(0, text, k), text[k]) && g[k] == ClassIn(StateAt(0, text, k), text[k]);
    }
  }

  // ---------------------------------------------------------------- its chains

  lemma CrowdedSpans(text: seq<BidiClass>, chars: seq<char>, x: seq<int>)
    requires IsCrowded(text, chars) && CrowdedLevels(x)
    ensures IsSpan(text, x, 0, CROWD + 1, 0) && IsSpan(text, x, CROWD + 1, CROWD + 5, 1)
  {
    assert x[0..CROWD + 1][0] == 0;
    assert x[CROWD + 1..CROWD + 5][0] == 1;
  }

  ghost predicate TwoRuns(runs: seq<LevelRun>, m: nat, n: nat) {
    && |runs| == 2 && runs[0].start == 0 && runs[0].end == runs[1].start == m && runs[1].end == n
    && runs[0].level == 0 && runs[1].level == 1
  }

  lemma CrowdedRuns(text: seq<BidiClass>, chars: seq<char>, x: seq<int>, runs: seq<LevelRun>, upto: nat)
    requires IsCrowded(text, chars) && CrowdedLevels(x) && LevelRunsOf(text, x, runs, upto)
    ensures TwoRuns(runs, CROWD + 1, CROWD + 5)
  {
    CrowdedSpans(text, chars, x);
    assert Visible(x[CROWD + 4]);
    SpanUnique(text, x, 0, CROWD + 1, 0, runs[0].end, runs[0].level);
    assert |runs| >= 2 && runs[0].end == runs[1].start;
    SpanUnique(text, x, CROWD + 1, CROWD + 5, 1, runs[1].end, runs[1].level);
    RunBounds(text, x, runs, upto, 1, |runs| - 1);
    RunBounds(text, x, runs, upto, |runs| - 1, |runs| - 1);
  }

  lemma OneRun(text: seq<BidiClass>, x: seq<int>, runs: seq<LevelRun>, sq: RunSequence, s: nat)
    requires WellPlaced(text, x, runs) && Linked(text, x, runs, sq, s) && |runs| == 2
    requires !EndsWithInit(text, runs[0]) || sq.runs[0] == 1
    ensures |sq.runs| == 1
  {
    var q := Min(1, |sq.runs| - 1);
    assert sq.runs[q] < 2;
  }

  lemma OwnerListed(runs: seq<LevelRun>, sqs: seq<RunSequence>, r: nat, s: nat)
    requires Owned(runs, sqs) && r < |runs| && s < |sqs| && r !in sqs[s].runs
    ensures runs[r].seqId != s + 1 && runs[r].seqId <= |sqs|
  {
  }

  /** Two runs of which the first does not end with an initiator are two sequences. */
  lemma TwoSequences(text: seq<BidiClass>, x: seq<int>, runs: seq<LevelRun>, sqs: seq<RunSequence>, m: nat, n: nat)
    requires SequencesOf(text, x, runs, sqs) && TwoRuns(runs, m, n) && 0 < m <= |text| && !text[m - 1].IsIsoInit()
    ensures |sqs| == 2 && sqs[0].runs == [0] && sqs[1].runs == [1] && sqs[0].level == 0 && sqs[1].level == 1
  {
    assert 1 <= runs[0].seqId <= |sqs|;
    assert Linked(text, x, runs, sqs[0], 0);
    OneRun(text, x, runs, sqs[0], 0);
    OwnerListed(runs, sqs, 1, 0);
    assert Linked(text, x, runs, sqs[1], 1);
    OneRun(text, x, runs, sqs[1], 1);
    var last := |sqs| - 1;
    assert Linked(text, x, runs, sqs[last], last);
  }

  lemma OneRunChain(runs: seq<LevelRun>, r: nat)
    requires r < |runs| && runs[r].start <= runs[r].end
    ensures RunsExist(runs, [r]) && ChainIndices(runs, [r]) == Range(runs[r].start, runs[r].end)
  {
    assert [r][..0] == [];
    assert ChainIndices(runs, []) == [];
  }

  ghost predicate TwoChains(sqs: seq<RunSequence>, m: nat, n: nat)
  {
    && m <= n && |sqs| == 2 && sqs[0].indices == Range(0, m) && sqs[1].indices == Range(m, n)
    && sqs[1].level == 1 && sqs[1].sos == sqs[1].eos == RightToLeft
  }

  lemma CrowdedChains(text: seq<BidiClass>, chars: seq<char>, x: seq<int>, runs: seq<LevelRun>, upto: nat,
                      sqs: seq<RunSequence>)
    requires IsCrowded(text, chars) && CrowdedLevels(x) && Sequencing(0, text, x, runs, upto, sqs)
    ensures TwoChains(sqs, CROWD + 1, CROWD + 5)
  {
    CrowdedRuns(text, chars, x, runs, upto);
    TwoSequences(text, x, runs, sqs, CROWD + 1, CROWD + 5);
    OneRunChain(runs, 0);
    OneRunChain(runs, 1);
    SosMeetsX10(text, x, 0, runs, upto, sqs, 1);
    assert HasSides(text, 0, runs, sqs[1]);
    assert LevelBefore(x, 0, CROWD + 1) <= 1 && LevelAfter(x, 0, CROWD + 5) == 0 by {
      assert LevelBefore(x, 0, CROWD + 1) == LevelBefore(x, 0, CROWD) == x[CROWD - 1];
    }
  }

  // ---------------------------------------------------------------- its classes

  /** A class that W1 to W7 may change. */
  predicate IsWeak(c: BidiClass) {
    || c.NonspacingMark? || c.EuropeanNumber? || c.ArabicLetter? || c.EuropeanSeparator?
    || c.CommonSeparator? || c.EuropeanTerminator?
  }

  ghost predicate NoneWeak(g: seq<BidiClass>) {
    forall k {:trigger g[k]} :: 0 <= k < |g| ==> !IsWeak(g[k])
  }

  /** W1 to W7 have nothing to do. */
  lemma IdleRule(name: RuleName, levels: seq<int>, sqs: seq<RunSequence>, before: seq<BidiClass>,
                 after: seq<BidiClass>)
    requires name != N1 && name != N2 && RuleApplied(name, levels, sqs, before, after) && NoneWeak(before)
    ensures after == before
  {
    forall s {:trigger sqs[s]} | 0 <= s < |sqs|
      ensures Gather(after, sqs[s].indices) == Gather(before, sqs[s].indices)
    {
      IdleChain(name, Gather(before, sqs[s].indices), Gather(levels, sqs[s].indices), sqs[s]);
      assert Gather(after, sqs[s].indices) == RuleOn(RuleOf(name), before, levels, sqs, s);
    }
    SameByChains(after, before, sqs);
  }

  lemma IdleChain(name: RuleName, g: seq<BidiClass>, lv: seq<int>, sq: RunSequence)
    requires name != N1 && name != N2 && |g| == |lv| && NoneWeak(g)
    ensures ApplyRule(name, g, lv, sq) == g
  {
    var r := ApplyRule(name, g, lv, sq);
    forall k {:trigger r[k]} | 0 <= k < |g| ensures r[k] == g[k] {
      assert r[k] == RuleAt(name, g, lv, sq, k) && !IsWeak(g[k]);
    }
  }

  lemma IdleWeak(levels: seq<int>, sqs: seq<RunSequence>, c: Stages)
    requires WeakApplied(levels, sqs, c) && NoneWeak(c.x8)
    ensures c.w7 == c.x8
  {
    IdleRule(W1, levels, sqs, c.x8, c.w1);
    IdleRule(W2, levels, sqs, c.w1, c.w2);
    IdleRule(W3, levels, sqs, c.w2, c.w3);
    IdleRule(W4, levels, sqs, c.w3, c.w4);
    IdleRule(W5, levels, sqs, c.w4, c.w5);
    IdleRule(W6, levels, sqs, c.w5, c.w6);
    IdleRule(W7, levels, sqs, c.w6, c.w7);
  }

  /** Only opening brackets so far: all are open. */
  lemma {:induction false} AllOpen(chars: seq<char>, g: seq<BidiClass>, table: BracketTable, k: nat)
    requires k <= |chars| == |g| && KnowsParentheses(table)
    requires forall j {:trigger g[j]} {:trigger chars[j]} :: 0 <= j < k ==> g[j].OtherNeutral? && chars[j] == '('
    ensures |Bd16(chars, g, table, k).open| == k
    decreases k
  {
    if 0 < k {
      AllOpen(chars, g, table, k - 1);
      assert g[k - 1].OtherNeutral?;
    }
  }

  lemma FirstChainOverflows(text: seq<BidiClass>, chars: seq<char>, table: BracketTable, idx: seq<nat>)
    requires IsCrowded(text, chars) && KnowsParentheses(table) && idx == Range(0, CROWD + 1)
    ensures ChainOverflows(text, chars, table, idx)
  {
    var g, c := Gather(text, idx), Gather(chars, idx);
    forall j {:trigger g[j]} {:trigger c[j]} | 0 <= j < CROWD ensures g[j].OtherNeutral? && c[j] == '(' {
      assert g[j] == text[j] && c[j] == chars[j];
    }
    AllOpen(c, g, table, MAX_PAIRING_DEPTH);
    assert OverflowsAt(c, g, table, MAX_PAIRING_DEPTH);
  }

  /** The classes and characters of the pair and what stands around it. */
  ghost predicate IsPairedChain(g: seq<BidiClass>, c: seq<char>, lv: seq<int>) {
    && |g| == |c| == |lv| == 4 && g[0] == g[2] == OtherNeutral && g[1] == g[3] == LeftToRight
    && c[0] == '(' && c[2] == ')' && lv[0] == lv[1] == lv[2] == lv[3] == 1
  }

  lemma {:induction false} FewOpen(chars: seq<char>, g: seq<BidiClass>, table: BracketTable, k: nat)
    requires k <= |chars| == |g|
    ensures |Bd16(chars, g, table, k).open| <= k
    decreases k
  {
    if 0 < k {
      FewOpen(chars, g, table, k - 1);
    }
  }

  lemma NoOverflow(chars: seq<char>, g: seq<BidiClass>, table: BracketTable)
    requires |chars| == |g| <= MAX_PAIRING_DEPTH
    ensures !Overflows(chars, g, table, |g|)
  {
    forall j {:trigger OverflowsAt(chars, g, table, j)} | 0 <= j < |g| ensures !OverflowsAt(chars, g, table, j) {
      FewOpen(chars, g, table, j);
    }
  }

  lemma Bd16Next(chars: seq<char>, g: seq<BidiClass>, table: BracketTable, k: nat, s: BracketState)
    requires k < |chars| == |g| && Bd16(chars, g, table, k) == s
    ensures Bd16(chars, g, table, k + 1) == BracketStep(s, BracketAt(chars, g, table, k), chars[k], k)
  {
  }

  lemma PairCloses(open: BracketState, closed: BracketState)
    requires open == BracketState([OpenBracket(')', 0)], []) && closed == BracketState([], [Pair(0, 2)])
    ensures CloseBracket(open, ')', 2) == closed
  {
    assert FindOpen(open.open, ')') == 0;
  }

  lemma OnePair(g: seq<BidiClass>, c: seq<char>, lv: seq<int>, table: BracketTable)
    requires IsPairedChain(g, c, lv) && KnowsParentheses(table)
    ensures PairsOf(c, g, table) == [Pair(0, 2)] && !Overflows(c, g, table, 4)
  {
    var empty, open := BracketState([], []), BracketState([OpenBracket(')', 0)], []);
    var closed := BracketState([], [Pair(0, 2)]);
    NoOverflow(c, g, table);
    Bd16Next(c, g, table, 0, empty);
    Bd16Next(c, g, table, 1, open);
    PairCloses(open, closed);
    Bd16Next(c, g, table, 2, open);
    Bd16Next(c, g, table, 3, closed);
    OneSorted(Pair(0, 2));
  }

  lemma OneSorted(p: Pair)
    ensures SortPairs([p]) == [p]
  {
  }

  /** N0 gives the closing bracket the embedding direction. */
  lemma PairIsR(g: seq<BidiClass>, orig: seq<BidiClass>, lv: seq<int>, sos: BidiClass)
    requires |g| == |orig| == |lv| >= 4 && g[0] == g[2] == OtherNeutral && g[1] == LeftToRight && sos == RightToLeft
    ensures PairsFit([Pair(0, 2)], |g|) && ResolvePairs(g, orig, lv, sos, RTL, [Pair(0, 2)])[2] == RightToLeft
  {
    var p := Pair(0, 2);
    assert [p][..0] == [];
    assert ResolvePairs(g, orig, lv, sos, RTL, []) == g;
    assert StrongDirection(g[1]) == Some(LTR);
    assert StrongInside(g, p, LTR) && !StrongInside(g, p, RTL);
    assert PriorDirection(g, lv, sos, 0) == Some(RTL);
    assert PairDirection(g, lv, sos, RTL, p) == Some(RTL);
    assert ResolvePair(g, orig, lv, sos, RTL, p)[2] == RightToLeft;
  }

  lemma PairResolves(g: seq<BidiClass>, c: seq<char>, orig: seq<BidiClass>, lv: seq<int>, sq: RunSequence,
                     table: BracketTable)
    requires IsPairedChain(g, c, lv) && KnowsParentheses(table) && |orig| == 4
    requires sq.level == 1 && sq.sos == RightToLeft
    ensures ResolveBrackets(g, c, orig, lv, sq, table)[2] == RightToLeft
  {
    OnePair(g, c, lv, table);
    PairIsR(g, orig, lv, sq.sos);
  }

  /** Without N0 the letters around the closing bracket make it L. */
  lemma PairIsL(g: seq<BidiClass>, lv: seq<int>, sq: RunSequence, r: seq<BidiClass>)
    requires |g| == |lv| >= 4 && g[2] == OtherNeutral && g[1] == g[3] == LeftToRight && r == ApplyRule(N1, g, lv, sq)
    requires lv[1] == lv[2] == lv[3] == 1
    ensures r[2] == LeftToRight
  {
    assert Stops(g, lv, 1) && Stops(g, lv, 3);
    assert StopBefore(g, lv, 2) == 1 && StopFrom(g, lv, 3) == 3;
    assert r[2] == RuleAt(N1, g, lv, sq, 2);
  }

  lemma CrowdedStops(text: seq<BidiClass>, chars: seq<char>, table: BracketTable, x: seq<int>,
                     sqs: seq<RunSequence>, n: nat, c: Stages)
    requires IsCrowded(text, chars) && KnowsParentheses(table) && TwoChains(sqs, CROWD + 1, CROWD + 5)
    requires c.w7 == text && BracketsApplied(text, chars, table, x, sqs, n, c.w7, c.n0)
    ensures c.n0 == text
  {
    FirstChainOverflows(text, chars, table, sqs[0].indices);
    assert n == 0;
    AppliedNone(BracketRule(text, chars, table), text, x, sqs);
    AppliedUnique(BracketRule(text, chars, table), text, c.n0, text, x, sqs, 0);
  }

  lemma PairedChain(text: seq<BidiClass>, chars: seq<char>, x: seq<int>, idx: seq<nat>)
    requires IsCrowded(text, chars) && CrowdedLevels(x) && idx == Range(CROWD + 1, CROWD + 5)
    ensures IsPairedChain(Gather(text, idx), Gather(chars, idx), Gather(x, idx)) && idx[2] == CROWD + 3
  {
  }

  lemma CrowdedPair(text: seq<BidiClass>, chars: seq<char>, table: BracketTable, x: seq<int>, sqs: seq<RunSequence>,
                    b: seq<BidiClass>)
    requires IsCrowded(text, chars) && KnowsParentheses(table) && CrowdedLevels(x)
    requires TwoChains(sqs, CROWD + 1, CROWD + 5)
    requires Applied(PerChainRule(text, chars, table), text, b, x, sqs, 2)
    ensures |b| == CROWD + 5 && b[CROWD + 3] == RightToLeft
  {
    var idx := sqs[1].indices;
    var g, c, lv := Gather(text, idx), Gather(chars, idx), Gather(x, idx);
    PairedChain(text, chars, x, idx);
    OnePair(g, c, lv, table);
    PairResolves(g, c, g, lv, sqs[1], table);
    AppliedValue(PerChainRule(text, chars, table), text, b, x, sqs, 2, 1);
    PerChainValue(text, text, chars, table, x, sqs, 1);
    assert Gather(b, idx)[2] == b[CROWD + 3];
  }

  lemma CrowdedNeutral(text: seq<BidiClass>, chars: seq<char>, x: seq<int>, sqs: seq<RunSequence>, c: Stages)
    requires IsCrowded(text, chars) && CrowdedLevels(x) && TwoChains(sqs, CROWD + 1, CROWD + 5) && c.n0 == text
    requires RuleApplied(N1, x, sqs, c.n0, c.n1) && RuleApplied(N2, x, sqs, c.n1, c.n2)
    ensures |c.n2| == CROWD + 5 && c.n2[CROWD + 3] == LeftToRight
  {
    var idx := sqs[1].indices;
    PairedChain(text, chars, x, idx);
    AppliedValue(RuleOf(N1), text, c.n1, x, sqs, 2, 1);
    AppliedValue(RuleOf(N2), c.n1, c.n2, x, sqs, 2, 1);
    PairIsL(Gather(text, idx), Gather(x, idx), sqs[1], Gather(c.n1, idx));
    var g, lv, r := Gather(c.n1, idx), Gather(x, idx), Gather(c.n2, idx);
    assert r[2] == RuleAt(N2, g, lv, sqs[1], 2);
    assert r[2] == c.n2[CROWD + 3];
  }

  lemma CrowdedOutcome(text: seq<BidiClass>, chars: seq<char>, table: BracketTable, x: seq<int>,
                       runs: seq<LevelRun>, upto: nat, sqs: seq<RunSequence>, n: nat, c: Stages, b: seq<BidiClass>)
    requires IsCrowded(text, chars) && KnowsParentheses(table) && CrowdedLevels(x)
    requires c.x8 == text && Sequencing(0, text, x, runs, upto, sqs)
    requires TypesResolved(text, chars, table, x, sqs, n, c)
    requires Applied(PerChainRule(text, chars, table), c.w7, b, x, sqs, |sqs|)
    ensures c.n0 == c.w7 == text && |b| == |c.n2| == CROWD + 5
    ensures b[CROWD + 3] == RightToLeft && c.n2[CROWD + 3] == LeftToRight
  {
    CrowdedChains(text, chars, x, runs, upto, sqs);
    CrowdedWeak(text, chars, x, sqs, c);
    CrowdedStops(text, chars, table, x, sqs, n, c);
    CrowdedPair(text, chars, table, x, sqs, b);
    CrowdedNeutral(text, chars, x, sqs, c);
  }

  lemma CrowdedWeak(text: seq<BidiClass>, chars: seq<char>, x: seq<int>, sqs: seq<RunSequence>, c: Stages)
    requires IsCrowded(text, chars) && c.x8 == text && WeakApplied(x, sqs, c)
    ensures c.w7 == text
  {
    IdleWeak(x, sqs, c);
  }

  lemma CrowdedImplicit(x: seq<int>, types: seq<BidiClass>, levels: seq<int>)
    requires CrowdedLevels(x) && IsImplicit(x, types, levels) && types[CROWD + 3] == LeftToRight
    ensures |levels| == CROWD + 5 && levels[CROWD + 3] == 2
  {
  }

  lemma CrowdedUnresolved(text: seq<BidiClass>, chars: seq<char>, table: BracketTable, t: Trace,
                          types: seq<BidiClass>, levels: seq<int>, b: seq<BidiClass>)
    requires IsCrowded(text, chars) && KnowsParentheses(table)
    requires Resolves(0, text, chars, table, t, types, levels)
    requires Applied(PerChainRule(text, chars, table), t.stages.w7, b, LevelsOf(0, text), t.sqs, |t.sqs|)
    ensures t.stages.n0 == t.stages.w7 == text
    ensures |types| == |levels| == |b| == CROWD + 5
    ensures b[CROWD + 3] == RightToLeft && types[CROWD + 3] == LeftToRight && levels[CROWD + 3] == 2
  {
    CrowdedExplicit(text, chars);
    CrowdedOutcome(text, chars, table, LevelsOf(0, text), t.runs, t.upto, t.sqs, t.chains, t.stages, b);
    CrowdedImplicit(LevelsOf(0, text), types, levels);
  }

  /** All brackets of the paragraph stay neutral: the code leaves the pair in the embedding alone, and the
      closing one becomes L.  N0 on each chain by itself makes it R. */
  lemma LaterPairUnresolved(text: seq<BidiClass>, chars: seq<char>, table: BracketTable, t: Trace,
                            types: seq<BidiClass>, levels: seq<int>, b: seq<BidiClass>)
    requires text == CrowdedText() && chars == CrowdedChars() && KnowsParentheses(table)
    requires Resolves(0, text, chars, table, t, types, levels)
    requires Applied(PerChainRule(text, chars, table), t.stages.w7, b, LevelsOf(0, text), t.sqs, |t.sqs|)
    ensures t.stages.n0 == t.stages.w7 == text
    ensures |types| == |levels| == |b| == CROWD + 5
    ensures b[CROWD + 3] == RightToLeft && types[CROWD + 3] == LeftToRight && levels[CROWD + 3] == 2
  {
    CrowdedIsCrowded();
    CrowdedUnresolved(text, chars, table, t, types, levels, b);
  }
}
