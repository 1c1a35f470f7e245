/** Paragraphs on which the code does not do what it is for. */
module WitnessTexts {
  import opened BidiTypes
  import opened ExplicitLevels
  import opened ExplicitText
  import opened BracketRules
  import opened Lines
  import opened Resolution
  import opened Reorder
  import opened VisualOrder
  import opened VisualRuns

  const DEEP := 124

  /** Two Arabic numbers inside 124 embeddings. */
  function DeepNumbers(): (text: seq<BidiClass>)
    ensures |text| == DEEP + 2 && text[DEEP] == text[DEEP + 1] == ArabicNumber
    ensures forall k {:trigger text[k]} :: 0 <= k < DEEP ==> text[k] == Nesting(DEEP)[k]
  {
    Nesting(DEEP) + [ArabicNumber, ArabicNumber]
  }

  lemma DeepState(k: nat)
    requires k <= DEEP + 2
    ensures StateAt(0, DeepNumbers(), k) == Active(Chain(if k <= DEEP then k + 1 else DEEP + 1), 0, 0, 0)
    decreases k
  {
    var text := DeepNumbers();
    if k <= DEEP {
      assert Symbols(text)[..k] == Nesting(k);
      NestingChain(k);
    } else {
      DeepState(k - 1);
      StateStep(0, text, k - 1);
    }
  }

  lemma DeepLevels(x: seq<int>, g: seq<BidiClass>)
    requires x == LevelsOf(0, DeepNumbers()) && g == ClassesOf(0, DeepNumbers())
    ensures NeverPanics(0, DeepNumbers())
    ensures |x| == |g| == DEEP + 2
    ensures forall k {:trigger x[k]} :: 0 <= k < DEEP + 2 ==> x[k] == if k < DEEP then NO_LEVEL else DEEP
    ensures g[DEEP].ArabicNumber? && g[DEEP + 1].ArabicNumber?
  {
    var text := DeepNumbers();
    forall k {:trigger StateAt(0, text, k)} | 0 <= k <= |text| ensures StateAt(0, text, k).Nonempty() {
      DeepState(k);
    }
    forall k {:trigger x[k]} | 0 <= k < DEEP + 2 ensures x[k] == if k < DEEP then NO_LEVEL else DEEP {
      assert x[k] == ExplicitLevel(0, text, k);
      DeepState(k);
      assert k < DEEP ==> text[k].IsRemovedByX9();
    }
    forall k {:trigger g[k]} | DEEP <= k < DEEP + 2 ensures g[k].ArabicNumber? {
      assert g[k] == ExplicitClass(0, text, k);
      DeepState(k);
    }
  }

  // ---------------------------------------------------------------- the sentinel is reached

  ghost predicate AllDeep(levels: seq<int>, level: int) {
    && |levels| == DEEP + 2
    && forall k {:trigger levels[k]} :: 0 <= k < DEEP + 2 ==> levels[k] == if k < DEEP then NO_LEVEL else level
  }

  lemma DeepHitsSentinel(levels: seq<int>)
    requires AllDeep(levels, MAX_RESOLVED_LEVEL)
    ensures SentinelHit(levels)
  {
    assert Visible(levels[DEEP]) && Visible(levels[DEEP + 1]);
    assert MinVisible(levels, DEEP, DEEP + 1) == MAX_RESOLVED_LEVEL;
  }

  lemma DeepTypes(table: BracketTable, t: Trace, types: seq<BidiClass>, levels: seq<int>)
    requires Resolves(0, DeepNumbers(), [], table, t, types, levels)
    ensures |types| == DEEP + 2 && types[DEEP].ArabicNumber? && types[DEEP + 1].ArabicNumber?
  {
    DeepLevels(LevelsOf(0, DeepNumbers()), ClassesOf(0, DeepNumbers()));
    SteadyCharacter(0, DeepNumbers(), table, t, types, levels, DEEP);
    SteadyCharacter(0, DeepNumbers(), table, t, types, levels, DEEP + 1);
  }

  lemma DeepImplicit(x: seq<int>, types: seq<BidiClass>, levels: seq<int>)
    requires AllDeep(x, DEEP) && IsImplicit(x, types, levels)
    requires types[DEEP].ArabicNumber? && types[DEEP + 1].ArabicNumber?
    ensures AllDeep(levels, MAX_RESOLVED_LEVEL)
  {
  }

  /** The paragraph is resolved without panic, to levels that hit the sentinel: its display order is
      not the one of rule L2. */
  lemma SentinelReached(table: BracketTable, t: Trace, types: seq<BidiClass>, levels: seq<int>)
    requires Resolves(0, DeepNumbers(), [], table, t, types, levels)
    ensures NeverPanics(0, DeepNumbers()) && AllDeep(levels, MAX_RESOLVED_LEVEL) && SentinelHit(levels)
  {
    var x := LevelsOf(0, DeepNumbers());
    DeepLevels(x, ClassesOf(0, DeepNumbers()));
    DeepTypes(table, t, types, levels);
    DeepImplicit(x, types, levels);
    DeepHitsSentinel(levels);
  }

  // ---------------------------------------------------------------- lines that do not start the paragraph

  /** Characters that open, close and override nothing keep the machine where it starts. */
  ghost predicate IsPlain(text: seq<BidiClass>) {
    forall k {:trigger text[k]} :: 0 <= k < |text| ==> text[k].LeftToRight? || text[k].BoundaryNeutral?
  }

  lemma PlainState(text: seq<BidiClass>, k: nat)
    requires IsPlain(text) && k <= |text|
    ensures StateAt(0, text, k) == Initial(0)
    decreases k
  {
    if 0 < k {
      PlainState(text, k - 1);
      StateStep(0, text, k - 1);
      assert SymbolAt(text, k - 1) == text[k - 1];
    } else {
      assert Symbols(text)[..0] == [];
    }
  }

  lemma PlainCharacter(text: seq<BidiClass>, g: seq<BidiClass>, x: seq<int>, k: nat)
    requires IsPlain(text) && k < |text| && g == ClassesOf(0, text) && x == LevelsOf(0, text)
    ensures if text[k].LeftToRight? then x[k] == 0 && g[k] == LeftToRight else x[k] == NO_LEVEL
  {
    PlainState(text, k);
    assert x[k] == ExplicitLevel(0, text, k) && g[k] == ExplicitClass(0, text, k);
  }

  lemma PlainNeverPanics(text: seq<BidiClass>)
    requires IsPlain(text)
    ensures NeverPanics(0, text)
  {
    forall k {:trigger StateAt(0, text, k)} | 0 <= k <= |text| ensures StateAt(0, text, k).Nonempty() {
      PlainState(text, k);
    }
  }

  lemma LetterAtBase(base: int, table: BracketTable, t: Trace, text: seq<BidiClass>, g: seq<BidiClass>, x: seq<int>,
                     types: seq<BidiClass>, levels: seq<int>, k: nat)
    requires 0 <= base <= 1 && NeverPanics(base, text) && Resolves(base, text, [], table, t, types, levels)
    requires g == ClassesOf(base, text) && x == LevelsOf(base, text)
    requires k < |text| && x[k] == 0 && g[k] == LeftToRight
    ensures |levels| == |text| && levels[k] == 0
  {
    SteadyCharacter(base, text, table, t, types, levels, k);
  }

  lemma RemovedStays(x: seq<int>, types: seq<BidiClass>, levels: seq<int>, k: nat)
    requires IsImplicit(x, types, levels) && k < |x| && x[k] == NO_LEVEL
    ensures levels[k] == NO_LEVEL
  {
  }

  /** Its letters end at level 0. */
  lemma PlainResolves(text: seq<BidiClass>, table: BracketTable, t: Trace, types: seq<BidiClass>, levels: seq<int>)
    requires IsPlain(text) && Resolves(0, text, [], table, t, types, levels)
    ensures |levels| == |text|
    ensures forall k {:trigger levels[k]} :: 0 <= k < |text| ==>
      levels[k] == if text[k].LeftToRight? then 0 else NO_LEVEL
  {
    var g, x := ClassesOf(0, text), LevelsOf(0, text);
    PlainNeverPanics(text);
    ResolvedImplicit(0, text, [], table, t, types, levels);
    forall k {:trigger levels[k]} | 0 <= k < |text|
      ensures levels[k] == if text[k].LeftToRight? then 0 else NO_LEVEL
    {
      PlainCharacter(text, g, x, k);
      if text[k].LeftToRight? {
        LetterAtBase(0, table, t, text, g, x, types, levels, k);
      } else {
        RemovedStays(x, types, levels, k);
      }
    }
  }

  lemma PlainLine(text: seq<BidiClass>, levels: seq<int>, start: nat, end: nat)
    requires IsPlain(text) && |levels| == |text| && start <= end <= |text|
    ensures L1Levels(text, levels, 0, start, end) == levels[start..end]
  {
    var lv := L1Levels(text, levels, 0, start, end);
    forall i {:trigger lv[i]} | 0 <= i < |lv| ensures lv[i] == levels[start + i] {
      assert text[start + i].LeftToRight? || text[start + i].BoundaryNeutral?;
    }
  }

  /** One letter and two removed characters after another letter. */
  function LostText(): (text: seq<BidiClass>)
    ensures |text| == 4 && text[0] == text[1] == LeftToRight && text[2] == text[3] == BoundaryNeutral
  {
    [LeftToRight, LeftToRight, BoundaryNeutral, BoundaryNeutral]
  }

  lemma LostIsPlain(text: seq<BidiClass>)
    requires text == LostText()
    ensures IsPlain(text) && |text| == 4 && text[1] == LeftToRight && text[2] == text[3] == BoundaryNeutral
  {
  }

  lemma LostLevels(text: seq<BidiClass>, table: BracketTable, t: Trace, types: seq<BidiClass>, levels: seq<int>)
    requires |text| == 4 && text[1] == LeftToRight && text[2] == text[3] == BoundaryNeutral
    requires IsPlain(text) && Resolves(0, text, [], table, t, types, levels)
    ensures |levels| == 4 && levels[1] == 0 && levels[2] == levels[3] == NO_LEVEL
  {
    PlainResolves(text, table, t, types, levels);
  }

  lemma LostLine(levels: seq<int>, lv: seq<int>)
    requires |levels| == 4 && levels[1] == 0 && levels[2] == levels[3] == NO_LEVEL
    requires lv == levels[1..4]
    ensures PositionsFit(lv, 1) && NothingFound(lv, 1) && !LevelsAgree(lv, 1)
  {
    assert lv[0] == 0 && lv[1] == lv[2] == NO_LEVEL;
  }

  /** On the line without the first letter nothing panics, but the second letter looks for its level at
      the place of a removed character, and no run is left to show it. */
  lemma CharacterIsLost(text: seq<BidiClass>, table: BracketTable, t: Trace, types: seq<BidiClass>,
                        levels: seq<int>)
    requires text == LostText() && Resolves(0, text, [], table, t, types, levels)
    ensures |levels| == 4 && levels[1] == 0
    ensures var lv := L1Levels(text, levels, 0, 1, 4);
            PositionsFit(lv, 1) && NothingFound(lv, 1) && !LevelsAgree(lv, 1)
  {
    LostIsPlain(text);
    LostLevels(text, table, t, types, levels);
    PlainLine(text, levels, 1, 4);
    LostLine(levels, L1Levels(text, levels, 0, 1, 4));
  }

  function TwoLetters(): (text: seq<BidiClass>)
    ensures |text| == 2 && text[0] == text[1] == LeftToRight
  {
    [LeftToRight, LeftToRight]
  }

  lemma TwoArePlain(text: seq<BidiClass>)
    requires text == TwoLetters()
    ensures IsPlain(text) && |text| == 2 && text[0] == text[1] == LeftToRight
  {
  }

  lemma TwoLevels(text: seq<BidiClass>, table: BracketTable, t: Trace, types: seq<BidiClass>, levels: seq<int>)
    requires |text| == 2 && text[1] == LeftToRight && IsPlain(text) && Resolves(0, text, [], table, t, types, levels)
    ensures |levels| == 2 && levels[1] == 0
  {
    PlainResolves(text, table, t, types, levels);
  }

  lemma TwoLine(levels: seq<int>, lv: seq<int>)
    requires |levels| == 2 && levels[1] == 0 && lv == levels[1..2]
    ensures !PositionsFit(lv, 1)
  {
    assert lv[0] == 0;
  }

  /** The line of the second of two letters: its position is no position of the line, and the code panics. */
  lemma LineRunsPanic(text: seq<BidiClass>, table: BracketTable, t: Trace, types: seq<BidiClass>,
                      levels: seq<int>)
    requires text == TwoLetters() && Resolves(0, text, [], table, t, types, levels)
    ensures |levels| == 2 && !PositionsFit(L1Levels(text, levels, 0, 1, 2), 1)
  {
    TwoArePlain(text);
    TwoLevels(text, table, t, types, levels);
    PlainLine(text, levels, 1, 2);
    TwoLine(levels, L1Levels(text, levels, 0, 1, 2));
  }
}
