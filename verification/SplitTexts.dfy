/** Two paragraphs whose chains are not the sequences of BD13, and what becomes of a number in one. */
module SplitTexts {
  import opened BidiTypes
  import opened ParagraphLevels
  import opened ExplicitLevels
  import opened ExplicitText
  import opened LevelRuns
  import opened Chains
  import opened TextChains
  import opened WeakTypes
  import opened ChainRules
  import opened BracketRules
  import opened Lines
  import opened OpenIsolates
  import opened IsolatePairs
  import opened IsolatingSequences
  import opened Resolution

  // ---------------------------------------------------------------- an initiator before the separator

  function SeparatorText(): (text: seq<BidiClass>)
    ensures |text| == 2 && text[0] == LeftToRightIsolate && text[1] == ParagraphSeparator
  {
    [LeftToRightIsolate, ParagraphSeparator]
  }

  lemma SeparatorStates(text: seq<BidiClass>)
    requires text == SeparatorText()
    ensures StateAt(0, text, 0) == Initial(0) && Symbols(text) == text
  {
    assert Symbols(text)[..0] == [];
  }

  lemma InitialAccepts(c: BidiClass, d: BidiClass)
    requires !d.RightToLeftIsolate? && !d.LeftToRightIsolate?
    ensures AcceptsIsolates(Initial(0), [c] + [d])
  {
    AcceptsNext(Initial(0), [], c);
    AcceptsNext(Initial(0), [c], d);
    assert [] + [c] == [c];
  }

  /** No isolate overflows, but the initiator ends a run that BD7 ends with the separator. */
  lemma SeparatorIsSplit(text: seq<BidiClass>, runs: seq<LevelRun>, upto: nat, sqs: seq<RunSequence>)
    requires text == SeparatorText()
    requires Sequencing(0, ClassesOf(0, text), LevelsOf(0, text), runs, upto, sqs)
    ensures Accepted(0, text) && PlainControls(text) && OverflowIsEmpty(0, text)
    ensures !MeetsBD13(text, LevelsOf(0, text), sqs)
  {
    SeparatorStates(text);
    InitialAccepts(LeftToRightIsolate, ParagraphSeparator);
    assert text == [LeftToRightIsolate] + [ParagraphSeparator];
    assert Opens(text, 0, 1);
    assert ExplicitLevel(0, text, 0) == 0;
    assert Stacked(0, text, 0);
    assert !SeparatorIsClear(0, text);
    BD13Iff(0, text, runs, upto, sqs);
  }

  // ---------------------------------------------------------------- a number in an isolate that overflows

  /** An Arabic letter, an isolate that overflows and is not closed, and a number, in 124 embeddings. */
  function NumberText(): seq<BidiClass> {
    Nesting(FULL) + [ArabicLetter, LeftToRightIsolate, EuropeanNumber]
  }

  ghost predicate IsNumberText(text: seq<BidiClass>) {
    && |text| == FULL + 3 && text[..FULL] == Nesting(FULL)
    && text[FULL] == ArabicLetter && text[FULL + 1] == LeftToRightIsolate && text[FULL + 2] == EuropeanNumber
  }

  lemma NumberTextIs()
    ensures IsNumberText(NumberText())
  {
    assert NumberText()[..FULL] == Nesting(FULL);
  }

  lemma NestedAt(text: seq<BidiClass>, k: nat)
    requires IsNumberText(text) && k < |text|
    ensures k < FULL ==> text[k].RightToLeftEmbedding? || text[k].LeftToRightEmbedding?
    ensures SymbolAt(text, k) == text[k]
  {
    assert k < FULL ==> text[k] == text[..FULL][k] == Nesting(FULL)[k];
  }

  lemma NumberIsPlain(text: seq<BidiClass>)
    requires IsNumberText(text)
    ensures PlainControls(text) && Symbols(text) == text
  {
    forall k {:trigger text[k]} | 0 <= k < |text|
      ensures !text[k].RightToLeftOverride? && !text[k].LeftToRightOverride? && !text[k].ParagraphSeparator?
      ensures Symbols(text)[k] == text[k]
    {
      NestedAt(text, k);
    }
  }

  function Full(): XState {
    Active(Chain(FULL + 1), 0, 0, 0)
  }

  function Overflowing(): XState {
    Active(Chain(FULL + 1), 1, 0, 0)
  }

  lemma NumberSteps()
    ensures Full().Nonempty() && Full().Top().level == FULL
    ensures Overflowing().Nonempty() && Overflowing().Top().level == FULL
    ensures Step(Full(), ArabicLetter) == Full() && Step(Full(), LeftToRightIsolate) == Overflowing()
    ensures Asked(Full(), LeftToRightIsolate).None?
  {
  }

  lemma NumberStates(text: seq<BidiClass>)
    requires IsNumberText(text)
    ensures StateAt(0, text, FULL) == StateAt(0, text, FULL + 1) == Full()
    ensures StateAt(0, text, FULL + 2) == Overflowing()
  {
    NumberIsPlain(text);
    NestingChain(FULL);
    NumberSteps();
    StepsTo(text, FULL, Full(), Full());
    StepsTo(text, FULL + 1, Full(), Overflowing());
  }

  lemma StepsTo(text: seq<BidiClass>, k: nat, s: XState, s': XState)
    requires k < |text| && Symbols(text) == text && StateAt(0, text, k) == s && Step(s, text[k]) == s'
    ensures StateAt(0, text, k + 1) == s'
  {
    StateStep(0, text, k);
    assert Symbols(text)[k] == text[k];
  }

  ghost predicate NumberLevels(x: seq<int>) {
    && |x| == FULL + 3
    && forall k {:trigger x[k]} :: 0 <= k < |x| ==> x[k] == if k < FULL then NO_LEVEL else FULL
  }

  lemma NumberExplicit(text: seq<BidiClass>)
    requires IsNumberText(text)
    ensures ClassesOf(0, text) == text && NumberLevels(LevelsOf(0, text))
  {
    NumberIsPlain(text);
    ClassesKept(0, text);
    NumberLevelsOf(text, LevelsOf(0, text));
  }

  lemma NumberLevelsOf(text: seq<BidiClass>, x: seq<int>)
    requires IsNumberText(text) && x == LevelsOf(0, text)
    ensures NumberLevels(x)
  {
    NumberTail(text, x);
    forall k {:trigger x[k]} | 0 <= k < FULL ensures x[k] == NO_LEVEL {
      NumberHead(text, x, k);
    }
  }

  lemma NumberHead(text: seq<BidiClass>, x: seq<int>, k: nat)
    requires IsNumberText(text) && x == LevelsOf(0, text) && k < FULL
    ensures x[k] == NO_LEVEL
  {
    NestedAt(text, k);
    assert x[k] == ExplicitLevel(0, text, k);
  }

  lemma NumberTail(text: seq<BidiClass>, x: seq<int>)
    requires IsNumberText(text) && x == LevelsOf(0, text)
    ensures x[FULL] == x[FULL + 1] == x[FULL + 2] == FULL
  {
    NumberStates(text);
    NumberSteps();
    LevelAtTop(0, text, x, FULL, Full());
    LevelAtTop(0, text, x, FULL + 1, Full());
    LevelAtTop(0, text, x, FULL + 2, Overflowing());
  }

  lemma NumberAccepted(text: seq<BidiClass>)
    requires IsNumberText(text)
    ensures Accepted(0, text) && !Stacked(0, text, FULL + 1)
  {
    var s, pre := Initial(0), Nesting(FULL);
    NumberIsPlain(text);
    NumberStates(text);
    NumberSteps();
    NestingAccepted(s, FULL);
    AcceptsNext(s, pre, ArabicLetter);
    assert Symbols(text)[..FULL + 1] == pre + [ArabicLetter];
    AcceptsNext(s, pre + [ArabicLetter], LeftToRightIsolate);
    AcceptsNext(s, pre + [ArabicLetter] + [LeftToRightIsolate], EuropeanNumber);
    assert text == pre + [ArabicLetter] + [LeftToRightIsolate] + [EuropeanNumber];
  }

  // ---------------------------------------------------------------- its chains

  /** What is known of the text and its runs and sequences. */
  ghost predicate IsNumbered(text: seq<BidiClass>, x: seq<int>, runs: seq<LevelRun>, upto: nat,
                             sqs: seq<RunSequence>)
  {
    && IsNumberText(text) && NumberLevels(x) && SequencedText(text, x, runs, upto, sqs)
    && Built(text, 0, runs, sqs)
  }

  /** BD13 has the letter, the initiator and the number in one sequence. */
  lemma NumberSequence(text: seq<BidiClass>, x: seq<int>)
    requires IsNumberText(text) && NumberLevels(x)
    ensures SameSequence(text, x, FULL, FULL + 1) && SameSequence(text, x, FULL + 1, FULL + 2)
    ensures LevelNeighbours(x, FULL + 1, FULL + 2)
  {
    assert LevelNeighbours(x, FULL, FULL + 1) && LevelNeighbours(x, FULL + 1, FULL + 2);
    assert Reaches(text, x, FULL + 1, FULL + 1) && Reaches(text, x, FULL + 2, FULL + 2);
    assert Follows(text, x, FULL, FULL + 1) && Follows(text, x, FULL + 1, FULL + 2);
  }

  lemma NumberIsSplit(text: seq<BidiClass>, x: seq<int>, runs: seq<LevelRun>, upto: nat, sqs: seq<RunSequence>)
    requires IsNumbered(text, x, runs, upto, sqs)
    ensures !InOneChain(sqs, FULL + 1, FULL + 2)
  {
    NumberSequence(text, x);
    if InOneChain(sqs, FULL + 1, FULL + 2) {
      SplitApart(text, x, 0, runs, upto, sqs, FULL + 1, FULL + 2);
    }
  }

  /** The first run ends with the initiator. */
  lemma FirstRun(text: seq<BidiClass>, x: seq<int>, runs: seq<LevelRun>, upto: nat)
    requires IsNumberText(text) && NumberLevels(x) && IsolateLevels(text, x) && LevelRunsOf(text, x, runs, upto)
    ensures runs != [] && runs[0].start == 0 && runs[0].end == FULL + 2
  {
    var a := InitiatorEndsRun(text, x, runs, upto, FULL + 1);
    var r := SplitIff(text, x, runs, upto, FULL, FULL + 1);
    SameRun(text, x, runs, upto, a, r, FULL + 1);
    var m := VisibleIn(text, x, runs[0]);
    RunBounds(text, x, runs, upto, 0, a);
  }

  /** The number is alone in its chain. */
  lemma NothingElse(text: seq<BidiClass>, x: seq<int>, runs: seq<LevelRun>, upto: nat, sqs: seq<RunSequence>,
                    s: nat, k: nat)
    requires IsNumbered(text, x, runs, upto, sqs) && s < |sqs| && FULL + 2 in sqs[s].indices
    requires k in sqs[s].indices
    ensures k == FULL + 2
  {
    var r := ChainRun(text, x, 0, runs, upto, sqs, s, k);
    if k < FULL + 2 {
      FirstRun(text, x, runs, upto);
      SameRun(text, x, runs, upto, 0, r, k);
      var p := RunPosition(text, x, 0, runs, upto, sqs, s, k);
      InitiatorInChain(text, x, runs, upto, sqs, s, p, k);
      NumberIsSplit(text, x, runs, upto, sqs);
    }
  }

  lemma InitiatorInChain(text: seq<BidiClass>, x: seq<int>, runs: seq<LevelRun>, upto: nat, sqs: seq<RunSequence>,
                         s: nat, p: nat, k: nat)
    requires IsNumbered(text, x, runs, upto, sqs) && s < |sqs| && k < FULL + 2 && InRun(runs, sqs[s].runs, p, k)
    ensures FULL + 1 in sqs[s].indices
  {
    FirstRun(text, x, runs, upto);
    SameRun(text, x, runs, upto, 0, sqs[s].runs[p], k);
    RunInChain(text, x, 0, runs, sqs, s, p, FULL + 1);
  }

  lemma OnlyOne(idx: seq<nat>, v: nat)
    requires Ascending(idx) && v in idx && forall m {:trigger idx[m]} :: 0 <= m < |idx| ==> idx[m] == v
    ensures idx == [v]
  {
    var last := |idx| - 1;
    assert idx[last] == v && idx[0] == v;
  }

  lemma NumberAlone(text: seq<BidiClass>, x: seq<int>, runs: seq<LevelRun>, upto: nat, sqs: seq<RunSequence>)
    returns (s: nat)
    requires IsNumbered(text, x, runs, upto, sqs)
    ensures s < |sqs| && sqs[s].indices == [FULL + 2] && sqs[s].level == FULL
  {
    s := VisibleInOneChain(text, x, 0, runs, upto, sqs, FULL + 2);
    ChainsAreDisjoint(text, x, 0, runs, upto, sqs);
    var idx := sqs[s].indices;
    forall m {:trigger idx[m]} | 0 <= m < |idx| ensures idx[m] == FULL + 2 {
      NothingElse(text, x, runs, upto, sqs, s, idx[m]);
    }
    OnlyOne(idx, FULL + 2);
  }

  // ---------------------------------------------------------------- its class

  /** What a rule does to the one character of a chain. */
  lemma RuleOnOne(name: RuleName, levels: seq<int>, sqs: seq<RunSequence>, before: seq<BidiClass>,
                  after: seq<BidiClass>, s: nat, k: nat)
    requires RuleApplied(name, levels, sqs, before, after) && s < |sqs| && sqs[s].indices == [k] && k < |before|
    ensures |after| == |before| && after[k] == RuleAt(name, [before[k]], [levels[k]], sqs[s], 0)
  {
    var idx := sqs[s].indices;
    var g, lv := Gather(before, idx), Gather(levels, idx);
    assert g == [before[k]] && lv == [levels[k]];
    assert Gather(after, idx) == RuleOn(RuleOf(name), before, levels, sqs, s);
    assert Gather(after, idx)[0] == after[k];
    ApplyRuleIsResult(name, g, lv, sqs[s]);
    assert ApplyRule(name, g, lv, sqs[s])[0] == RuleAt(name, g, lv, sqs[s], 0);
  }

  /** A European number alone in a chain after L. */
  lemma NumberAfterL(name: RuleName, c: BidiClass, level: int, sq: RunSequence)
    requires sq.sos == LeftToRight
    requires c == if name == N1 || name == N2 then LeftToRight else EuropeanNumber
    ensures RuleAt(name, [c], [level], sq, 0) ==
      if name == W7 || name == N1 || name == N2 then LeftToRight else EuropeanNumber
  {
    assert !c.EuropeanTerminator?;
  }

  lemma NumberBecomesL(x: seq<int>, sqs: seq<RunSequence>, s: nat, k: nat, c: Stages)
    requires WeakApplied(x, sqs, c) && c.n0 == c.w7
    requires RuleApplied(N1, x, sqs, c.n0, c.n1) && RuleApplied(N2, x, sqs, c.n1, c.n2)
    requires s < |sqs| && sqs[s].indices == [k] && sqs[s].sos == LeftToRight && k < |c.x8|
    requires c.x8[k] == EuropeanNumber
    ensures k < |c.n2| && c.n2[k] == LeftToRight
  {
    RuleOnOne(W1, x, sqs, c.x8, c.w1, s, k);
    NumberAfterL(W1, c.x8[k], x[k], sqs[s]);
    RuleOnOne(W2, x, sqs, c.w1, c.w2, s, k);
    NumberAfterL(W2, c.w1[k], x[k], sqs[s]);
    RuleOnOne(W3, x, sqs, c.w2, c.w3, s, k);
    NumberAfterL(W3, c.w2[k], x[k], sqs[s]);
    RuleOnOne(W4, x, sqs, c.w3, c.w4, s, k);
    NumberAfterL(W4, c.w3[k], x[k], sqs[s]);
    RuleOnOne(W5, x, sqs, c.w4, c.w5, s, k);
    NumberAfterL(W5, c.w4[k], x[k], sqs[s]);
    RuleOnOne(W6, x, sqs, c.w5, c.w6, s, k);
    NumberAfterL(W6, c.w5[k], x[k], sqs[s]);
    RuleOnOne(W7, x, sqs, c.w6, c.w7, s, k);
    NumberAfterL(W7, c.w6[k], x[k], sqs[s]);
    RuleOnOne(N1, x, sqs, c.n0, c.n1, s, k);
    NumberAfterL(N1, c.n0[k], x[k], sqs[s]);
    RuleOnOne(N2, x, sqs, c.n1, c.n2, s, k);
    NumberAfterL(N2, c.n1[k], x[k], sqs[s]);
  }

  lemma NumberSos(text: seq<BidiClass>, x: seq<int>, runs: seq<LevelRun>, upto: nat, sqs: seq<RunSequence>, s: nat)
    requires IsNumberText(text) && NumberLevels(x) && Sequencing(0, text, x, runs, upto, sqs)
    requires s < |sqs| && sqs[s].level == FULL
    ensures sqs[s].sos == LeftToRight
  {
    SosMeetsX10(text, x, 0, runs, upto, sqs, s);
    var before := LevelBefore(x, 0, runs[sqs[s].runs[0]].start);
    AllAtMostFull(x, runs[sqs[s].runs[0]].start);
    FullIsEven(before);
  }

  lemma FullIsEven(before: int)
    requires before <= FULL
    ensures LevelClass(Max(before, FULL)) == LeftToRight
  {
  }

  lemma {:induction false} AllAtMostFull(x: seq<int>, k: nat)
    requires NumberLevels(x) && k <= |x|
    ensures LevelBefore(x, 0, k) <= FULL
    decreases k
  {
    if 0 < k {
      AllAtMostFull(x, k - 1);
    }
  }

  lemma NumberOverflows(text: seq<BidiClass>)
    requires IsNumberText(text)
    ensures Accepted(0, text) && PlainControls(text) && !OverflowIsEmpty(0, text)
  {
    NumberAccepted(text);
    NumberIsPlain(text);
    assert Opens(text, FULL + 1, FULL + 2);
  }

  /** The number is cut off from the letter before it: the code makes it L at level 124.  In the sequence that
      BD13 asks for, rule W2 makes it an Arabic number, which goes to level 126. */
  lemma NumberLosesContext(text: seq<BidiClass>, table: BracketTable, t: Trace, types: seq<BidiClass>,
                           levels: seq<int>)
    requires text == NumberText() && Resolves(0, text, [], table, t, types, levels)
    ensures !MeetsBD13(text, LevelsOf(0, text), t.sqs)
    ensures |types| == |levels| == |text| == FULL + 3 && types[FULL + 2] == LeftToRight && levels[FULL + 2] == FULL
    ensures W2At(text[FULL..], LeftToRight, 2) == ArabicNumber && ImplicitLevel(FULL, ArabicNumber) == FULL + 2
  {
    NumberTextIs();
    NumberOfText(text, table, t, types, levels);
    NumberWhole(text);
  }

  lemma NumberWhole(text: seq<BidiClass>)
    requires IsNumberText(text)
    ensures W2At(text[FULL..], LeftToRight, 2) == ArabicNumber && ImplicitLevel(FULL, ArabicNumber) == FULL + 2
  {
    LetterBefore(text[FULL..]);
  }

  lemma NumberOfText(text: seq<BidiClass>, table: BracketTable, t: Trace, types: seq<BidiClass>, levels: seq<int>)
    requires IsNumberText(text) && Resolves(0, text, [], table, t, types, levels)
    ensures !MeetsBD13(text, LevelsOf(0, text), t.sqs)
    ensures |types| == |levels| == |text| == FULL + 3 && types[FULL + 2] == LeftToRight && levels[FULL + 2] == FULL
  {
    NumberResolves(text, table, t, types, levels);
    NumberMissesBD13(text, t.runs, t.upto, t.sqs);
  }

  lemma NumberMissesBD13(text: seq<BidiClass>, runs: seq<LevelRun>, upto: nat, sqs: seq<RunSequence>)
    requires IsNumberText(text) && Sequencing(0, ClassesOf(0, text), LevelsOf(0, text), runs, upto, sqs)
    ensures !MeetsBD13(text, LevelsOf(0, text), sqs)
  {
    NumberOverflows(text);
    BD13Iff(0, text, runs, upto, sqs);
  }

  lemma LetterBefore(g: seq<BidiClass>)
    requires |g| == 3 && g[0] == ArabicLetter && g[1] == LeftToRightIsolate && g[2] == EuropeanNumber
    ensures W2At(g, LeftToRight, 2) == ArabicNumber
  {
    assert LastStrong(g, true, LeftToRight, 2) == LastStrong(g, true, LeftToRight, 1) == ArabicLetter;
  }

  lemma NumberResolves(text: seq<BidiClass>, table: BracketTable, t: Trace, types: seq<BidiClass>, levels: seq<int>)
    requires IsNumberText(text) && Resolves(0, text, [], table, t, types, levels)
    ensures ClassesOf(0, text) == text
    ensures Sequencing(0, ClassesOf(0, text), LevelsOf(0, text), t.runs, t.upto, t.sqs)
    ensures |types| == |levels| == FULL + 3 && types[FULL + 2] == LeftToRight && levels[FULL + 2] == FULL
  {
    NumberExplicit(text);
    var s := NumberChain(text, LevelsOf(0, text), t.runs, t.upto, t.sqs);
    NumberOutcome(text, LevelsOf(0, text), t.sqs, s, t.stages, levels);
  }

  lemma NumberChain(text: seq<BidiClass>, x: seq<int>, runs: seq<LevelRun>, upto: nat, sqs: seq<RunSequence>)
    returns (s: nat)
    requires IsNumberText(text) && NumberLevels(x) && x == LevelsOf(0, text)
    requires Sequencing(0, text, x, runs, upto, sqs)
    ensures s < |sqs| && sqs[s].indices == [FULL + 2] && sqs[s].sos == LeftToRight
  {
    NumberOverflows(text);
    TextLevels(0, text);
    s := NumberAlone(text, x, runs, upto, sqs);
    NumberSos(text, x, runs, upto, sqs, s);
  }

  lemma NumberOutcome(text: seq<BidiClass>, x: seq<int>, sqs: seq<RunSequence>, s: nat, c: Stages, levels: seq<int>)
    requires IsNumberText(text) && NumberLevels(x)
    requires s < |sqs| && sqs[s].indices == [FULL + 2] && sqs[s].sos == LeftToRight
    requires c.x8 == text && WeakApplied(x, sqs, c) && c.n0 == c.w7
    requires RuleApplied(N1, x, sqs, c.n0, c.n1) && RuleApplied(N2, x, sqs, c.n1, c.n2) && IsImplicit(x, c.n2, levels)
    ensures |c.n2| == |levels| == FULL + 3 && c.n2[FULL + 2] == LeftToRight && levels[FULL + 2] == FULL
  {
    NumberBecomesL(x, sqs, s, FULL + 2, c);
    NumberLevel(x, c.n2, levels);
  }

  lemma NumberLevel(x: seq<int>, types: seq<BidiClass>, levels: seq<int>)
    requires NumberLevels(x) && IsImplicit(x, types, levels) && types[FULL + 2] == LeftToRight
    ensures |levels| == FULL + 3 && levels[FULL + 2] == FULL
  {
  }
}
