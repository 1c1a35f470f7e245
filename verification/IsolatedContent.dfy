/** Isolates isolate: whatever their content, what stands outside them gets the same classes and levels. */
module IsolatedContent {
  import opened BidiTypes
  import opened ExplicitText
  import opened OpenIsolates
  import opened LevelRuns
  import opened Chains
  import opened WeakTypes
  import opened ChainRules
  import opened BracketRules
  import opened Resolution
  import opened IsolatingSequences
  import opened RemovedCharacters
  import opened RemovedBrackets
  import opened ReplacedContent
  import opened IsolatedChains

  // ---------------------------------------------------------------- one rule

  lemma SidesMatter(name: RuleName, h: seq<BidiClass>, w: seq<int>, sq: RunSequence, sq': RunSequence)
    requires |h| == |w| && SameSides(sq, sq')
    ensures ApplyRule(name, h, w, sq) == ApplyRule(name, h, w, sq')
  {
    forall k | 0 <= k < |h| ensures ApplyRule(name, h, w, sq)[k] == ApplyRule(name, h, w, sq')[k] {
      assert RuleAt(name, h, w, sq, k) == RuleAt(name, h, w, sq', k);
    }
  }

  /** What the rule makes of chain `s`, without the removed characters. */
  lemma RuleLeaves(name: RuleName, a: ChainedText, s: nat, n: seq<nat>, vis: seq<nat>, g: seq<BidiClass>,
                   r: seq<BidiClass>, h: seq<BidiClass>, w: seq<int>)
    requires Shows(a, s, n, vis) && Consistent(g, a.x) && RuleApplied(name, a.x, a.sqs, g, r)
    requires InBounds(vis, |a.x|) && h == Gather(g, vis) && w == Gather(a.x, vis)
    ensures |h| == |w| && Kept(Gather(r, a.sqs[s].indices), Gather(a.x, a.sqs[s].indices), n,
                               ApplyRule(name, h, w, a.sqs[s]))
  {
    var idx := a.sqs[s].indices;
    ReducedChain(g, a, s, n, vis);
    RuleReduces(name, Gather(g, idx), Gather(a.x, idx), n, h, w, a.sqs[s]);
    assert Gather(r, idx) == RuleOn(RuleOf(name), g, a.x, a.sqs, s);
  }

  lemma RuleMovedAt(name: RuleName, a: ChainedText, i: nat, j: nat, b: ChainedText, j': nat, g: seq<BidiClass>,
                    r: seq<BidiClass>, g': seq<BidiClass>, r': seq<BidiClass>, p: nat)
    requires Twins(a, i, j, b, j') && AgreeOutside(g, i, j, g', j') && Consistent(g, a.x) && Consistent(g', b.x)
    requires RuleApplied(name, a.x, a.sqs, g, r) && RuleApplied(name, b.x, b.sqs, g', r')
    requires p < |a.x| && Outside(i, j, p) && Visible(a.x[p])
    ensures Shift(i, j, j', p) < |b.x| && r'[Shift(i, j, j', p)] == r[p]
  {
    var s, n, vis, t, n', vis' := SharedChain(a, i, j, b, j', p);
    ShownAscends(a, s, n, vis);
    ShownAscends(b, t, n', vis');
    var h, w := Gather(g, vis), Gather(a.x, vis);
    GatherMoved(g, i, j, g', j', vis, vis');
    GatherMoved(a.x, i, j, b.x, j', vis, vis');
    RuleLeaves(name, a, s, n, vis, g, r, h, w);
    RuleLeaves(name, b, t, n', vis', g', r', h, w);
    SidesMatter(name, h, w, a.sqs[s], b.sqs[t]);
    ResultMoved(a, i, j, b, j', s, n, vis, t, n', vis', r, r', ApplyRule(name, h, w, a.sqs[s]), p);
  }

  /** The chains of a text, ready for the rules after the first `m`. */
  ghost predicate ReadyFor(a: ChainedText, g: seq<BidiClass>, m: nat) {
    ChainsReady(g, a.x, a.sqs) && Cleared(g, a.x, m)
  }

  /** What holds of the visible characters outside holds of all characters outside. */
  lemma AgreeByLevels(a: ChainedText, i: nat, j: nat, b: ChainedText, j': nat, g: seq<BidiClass>, r: seq<BidiClass>,
                      g': seq<BidiClass>, r': seq<BidiClass>)
    requires AgreeOutside(a.x, i, j, b.x, j') && AgreeOutside(g, i, j, g', j')
    requires RemovedKept(g, a.x, r) && RemovedKept(g', b.x, r')
    requires forall p: nat {:trigger r[p]} :: p < |a.x| && Outside(i, j, p) && Visible(a.x[p]) ==>
      r'[Shift(i, j, j', p)] == r[p]
    ensures AgreeOutside(r, i, j, r', j')
  {
    forall p: nat {:trigger r[p]} | p < |r| && Outside(i, j, p) ensures r'[Shift(i, j, j', p)] == r[p] {
      assert b.x[Shift(i, j, j', p)] == a.x[p] && g'[Shift(i, j, j', p)] == g[p];
    }
  }

  /** The classes of the two texts after the first `m` rules. */
  ghost predicate StageAlike(a: ChainedText, i: nat, j: nat, b: ChainedText, j': nat, m: nat, g: seq<BidiClass>,
                             g': seq<BidiClass>)
  {
    AgreeOutside(g, i, j, g', j') && ReadyFor(a, g, m) && ReadyFor(b, g', m)
  }

  lemma RuleMoved(name: RuleName, a: ChainedText, i: nat, j: nat, b: ChainedText, j': nat, m: nat, g: seq<BidiClass>,
                  r: seq<BidiClass>, g': seq<BidiClass>, r': seq<BidiClass>)
    requires Twins(a, i, j, b, j') && StageAlike(a, i, j, b, j', m, g, g') && Rank(name) == m + 1
    requires RuleApplied(name, a.x, a.sqs, g, r) && RuleApplied(name, b.x, b.sqs, g', r')
    ensures StageAlike(a, i, j, b, j', m + 1, r, r')
  {
    RuleClearsAll(name, g, r, a.x, a.sqs);
    RuleClearsAll(name, g', r', b.x, b.sqs);
    forall p: nat {:trigger r[p]} | p < |a.x| && Outside(i, j, p) && Visible(a.x[p])
      ensures r'[Shift(i, j, j', p)] == r[p]
    {
      RuleMovedAt(name, a, i, j, b, j', g, r, g', r', p);
    }
    AgreeByLevels(a, i, j, b, j', g, r, g', r');
  }

  // ---------------------------------------------------------------- N0

  lemma BracketSides(h: seq<BidiClass>, chars: seq<char>, orig: seq<BidiClass>, w: seq<int>, sq: RunSequence,
                     sq': RunSequence, table: BracketTable)
    requires |h| == |chars| == |orig| == |w| && SameSides(sq, sq')
    ensures ResolveBrackets(h, chars, orig, w, sq, table) == ResolveBrackets(h, chars, orig, w, sq', table)
  {
  }

  /** No chain has overflowed, so N0 has been applied to all. */
  ghost predicate BracketsDone(a: ChainedText, chars: seq<char>, table: BracketTable, g: seq<BidiClass>,
                               r: seq<BidiClass>)
  {
    && |chars| == |a.text| == |a.x|
    && Applied(BracketRule(a.text, chars, table), g, r, a.x, a.sqs, |a.sqs|)
  }

  lemma BracketsLeave(a: ChainedText, chars: seq<char>, table: BracketTable, s: nat, n: seq<nat>, vis: seq<nat>,
                      g: seq<BidiClass>, r: seq<BidiClass>, h: seq<BidiClass>, w: seq<int>, orig: seq<BidiClass>,
                      shown: seq<char>)
    requires Shows(a, s, n, vis) && Consistent(g, a.x) && Consistent(a.text, a.x) && BracketsDone(a, chars, table, g, r)
    requires InBounds(vis, |a.x|) && h == Gather(g, vis) && w == Gather(a.x, vis)
    requires orig == Gather(a.text, vis) && shown == Gather(chars, vis)
    ensures |h| == |shown| == |orig| == |w|
    ensures Kept(Gather(r, a.sqs[s].indices), Gather(a.x, a.sqs[s].indices), n,
                 ResolveBrackets(h, shown, orig, w, a.sqs[s], table))
  {
    var idx := a.sqs[s].indices;
    ReducedChain(g, a, s, n, vis);
    ReducedChain(a.text, a, s, n, vis);
    GatherKept(chars, a, s, n, vis);
    BracketsSkip(Gather(g, idx), Gather(chars, idx), Gather(a.text, idx), Gather(a.x, idx), n, h, shown, orig, w,
                 a.sqs[s], table);
    assert Gather(r, idx) == RuleOn(BracketRule(a.text, chars, table), g, a.x, a.sqs, s);
  }

  lemma BracketsMovedAt(a: ChainedText, i: nat, j: nat, b: ChainedText, j': nat, chars: seq<char>, chars': seq<char>,
                        table: BracketTable, g: seq<BidiClass>, r: seq<BidiClass>, g': seq<BidiClass>,
                        r': seq<BidiClass>, p: nat)
    requires Twins(a, i, j, b, j') && AgreeOutside(g, i, j, g', j') && AgreeOutside(chars, i, j, chars', j')
    requires Consistent(g, a.x) && Consistent(g', b.x) && Consistent(a.text, a.x) && Consistent(b.text, b.x)
    requires BracketsDone(a, chars, table, g, r) && BracketsDone(b, chars', table, g', r')
    requires p < |a.x| && Outside(i, j, p) && Visible(a.x[p])
    ensures Shift(i, j, j', p) < |b.x| && r'[Shift(i, j, j', p)] == r[p]
  {
    var s, n, vis, t, n', vis' := SharedChain(a, i, j, b, j', p);
    ShownAscends(a, s, n, vis);
    ShownAscends(b, t, n', vis');
    var h, w, orig, shown := Gather(g, vis), Gather(a.x, vis), Gather(a.text, vis), Gather(chars, vis);
    GatherMoved(g, i, j, g', j', vis, vis');
    GatherMoved(a.x, i, j, b.x, j', vis, vis');
    GatherMoved(a.text, i, j, b.text, j', vis, vis');
    GatherMoved(chars, i, j, chars', j', vis, vis');
    BracketsLeave(a, chars, table, s, n, vis, g, r, h, w, orig, shown);
    BracketsLeave(b, chars', table, t, n', vis', g', r', h, w, orig, shown);
    BracketSides(h, shown, orig, w, a.sqs[s], b.sqs[t], table);
    ResultMoved(a, i, j, b, j', s, n, vis, t, n', vis', r, r', ResolveBrackets(h, shown, orig, w, a.sqs[s], table), p);
  }

  lemma BracketsMoved(a: ChainedText, i: nat, j: nat, b: ChainedText, j': nat, chars: seq<char>, chars': seq<char>,
                      table: BracketTable, g: seq<BidiClass>, r: seq<BidiClass>, g': seq<BidiClass>, r': seq<BidiClass>)
    requires Twins(a, i, j, b, j') && StageAlike(a, i, j, b, j', 8, g, g') && AgreeOutside(chars, i, j, chars', j')
    requires Consistent(a.text, a.x) && Consistent(b.text, b.x)
    requires BracketsDone(a, chars, table, g, r) && BracketsDone(b, chars', table, g', r')
    ensures StageAlike(a, i, j, b, j', 8, r, r')
  {
    BracketsClearAll(g, r, a.text, chars, table, a.x, a.sqs, |a.sqs|);
    BracketsClearAll(g', r', b.text, chars', table, b.x, b.sqs, |b.sqs|);
    forall p: nat {:trigger r[p]} | p < |a.x| && Outside(i, j, p) && Visible(a.x[p])
      ensures r'[Shift(i, j, j', p)] == r[p]
    {
      BracketsMovedAt(a, i, j, b, j', chars, chars', table, g, r, g', r', p);
    }
    AgreeByLevels(a, i, j, b, j', g, r, g', r');
  }

  // ---------------------------------------------------------------- all rules

  lemma RanksAre()
    ensures Rank(W1) == 1 && Rank(W2) == 2 && Rank(W3) == 3 && Rank(W4) == 4 && Rank(W5) == 5 && Rank(W6) == 6
    ensures Rank(W7) == 7 && Rank(N1) == 9 && Rank(N2) == 10
  {
  }

  lemma WeakMoved(a: ChainedText, i: nat, j: nat, b: ChainedText, j': nat, c: Stages, d: Stages)
    requires Twins(a, i, j, b, j') && StageAlike(a, i, j, b, j', 0, c.x8, d.x8)
    requires WeakApplied(a.x, a.sqs, c) && WeakApplied(b.x, b.sqs, d)
    ensures StageAlike(a, i, j, b, j', 7, c.w7, d.w7)
  {
    RanksAre();
    RuleMoved(W1, a, i, j, b, j', 0, c.x8, c.w1, d.x8, d.w1);
    RuleMoved(W2, a, i, j, b, j', 1, c.w1, c.w2, d.w1, d.w2);
    RuleMoved(W3, a, i, j, b, j', 2, c.w2, c.w3, d.w2, d.w3);
    RuleMoved(W4, a, i, j, b, j', 3, c.w3, c.w4, d.w3, d.w4);
    RuleMoved(W5, a, i, j, b, j', 4, c.w4, c.w5, d.w4, d.w5);
    RuleMoved(W6, a, i, j, b, j', 5, c.w5, c.w6, d.w5, d.w6);
    RuleMoved(W7, a, i, j, b, j', 6, c.w6, c.w7, d.w6, d.w7);
  }

  /** Nothing more is gone before N0. */
  lemma BeforeBrackets(a: ChainedText, i: nat, j: nat, b: ChainedText, j': nat, g: seq<BidiClass>, g': seq<BidiClass>)
    requires StageAlike(a, i, j, b, j', 7, g, g')
    ensures StageAlike(a, i, j, b, j', 8, g, g')
  {
  }

  /** Without characters there are no brackets; with them no chain overflows. */
  ghost predicate NoOverflow(paragraph: seq<char>, sqs: seq<RunSequence>, chains: nat) {
    paragraph == [] || chains == |sqs|
  }

  ghost predicate CharactersAgree(paragraph: seq<char>, i: nat, j: nat, paragraph': seq<char>, j': nat) {
    (paragraph == [] && paragraph' == []) || AgreeOutside(paragraph, i, j, paragraph', j')
  }

  lemma N0Moved(a: ChainedText, i: nat, j: nat, b: ChainedText, j': nat, paragraph: seq<char>,
                paragraph': seq<char>, table: BracketTable, m: nat, m': nat, g: seq<BidiClass>, r: seq<BidiClass>,
                g': seq<BidiClass>, r': seq<BidiClass>)
    requires Twins(a, i, j, b, j') && CharactersAgree(paragraph, i, j, paragraph', j')
    requires NoOverflow(paragraph, a.sqs, m) && NoOverflow(paragraph', b.sqs, m')
    requires Consistent(a.text, a.x) && Consistent(b.text, b.x) && StageAlike(a, i, j, b, j', 7, g, g')
    requires BracketsApplied(a.text, paragraph, table, a.x, a.sqs, m, g, r)
    requires BracketsApplied(b.text, paragraph', table, b.x, b.sqs, m', g', r')
    ensures StageAlike(a, i, j, b, j', 8, r, r')
  {
    BeforeBrackets(a, i, j, b, j', g, g');
    if paragraph != [] {
      BracketsMoved(a, i, j, b, j', paragraph, paragraph', table, g, r, g', r');
    }
  }

  lemma NeutralMoved(a: ChainedText, i: nat, j: nat, b: ChainedText, j': nat, c: Stages, d: Stages)
    requires Twins(a, i, j, b, j') && StageAlike(a, i, j, b, j', 8, c.n0, d.n0)
    requires RuleApplied(N1, a.x, a.sqs, c.n0, c.n1) && RuleApplied(N1, b.x, b.sqs, d.n0, d.n1)
    requires RuleApplied(N2, a.x, a.sqs, c.n1, c.n2) && RuleApplied(N2, b.x, b.sqs, d.n1, d.n2)
    ensures StageAlike(a, i, j, b, j', 10, c.n2, d.n2)
  {
    RanksAre();
    RuleMoved(N1, a, i, j, b, j', 8, c.n0, c.n1, d.n0, d.n1);
    RuleMoved(N2, a, i, j, b, j', 9, c.n1, c.n2, d.n1, d.n2);
  }

  lemma TypesMoved(a: ChainedText, i: nat, j: nat, b: ChainedText, j': nat, paragraph: seq<char>,
                   paragraph': seq<char>, table: BracketTable, m: nat, m': nat, c: Stages, d: Stages)
    requires Twins(a, i, j, b, j') && CharactersAgree(paragraph, i, j, paragraph', j')
    requires NoOverflow(paragraph, a.sqs, m) && NoOverflow(paragraph', b.sqs, m')
    requires Consistent(a.text, a.x) && Consistent(b.text, b.x) && StageAlike(a, i, j, b, j', 0, c.x8, d.x8)
    requires TypesResolved(a.text, paragraph, table, a.x, a.sqs, m, c)
    requires TypesResolved(b.text, paragraph', table, b.x, b.sqs, m', d)
    ensures StageAlike(a, i, j, b, j', 10, c.n2, d.n2)
  {
    WeakMoved(a, i, j, b, j', c, d);
    N0Moved(a, i, j, b, j', paragraph, paragraph', table, m, m', c.w7, c.n0, d.w7, d.n0);
    NeutralMoved(a, i, j, b, j', c, d);
  }

  lemma ImplicitMoved(x: seq<int>, types: seq<BidiClass>, levels: seq<int>, i: nat, j: nat, x': seq<int>,
                      types': seq<BidiClass>, levels': seq<int>, j': nat)
    requires AgreeOutside(x, i, j, x', j') && AgreeOutside(types, i, j, types', j')
    requires IsImplicit(x, types, levels) && IsImplicit(x', types', levels')
    ensures AgreeOutside(levels, i, j, levels', j')
  {
    forall p: nat {:trigger levels[p]} | p < |levels| && Outside(i, j, p)
      ensures levels'[Shift(i, j, j', p)] == levels[p]
    {
      assert x'[Shift(i, j, j', p)] == x[p] && types'[Shift(i, j, j', p)] == types[p];
    }
  }

  // ---------------------------------------------------------------- texts

  /** A text without overrides and refused isolates whose chains are the sequences of BD13. */
  ghost predicate WellIsolated(base: int, text: seq<BidiClass>) {
    Accepted(base, text) && PlainControls(text) && OverflowIsEmpty(base, text) && SeparatorIsClear(base, text)
  }

  lemma SameLevel(base: int, text: seq<BidiClass>, p: nat, text': seq<BidiClass>, q: nat)
    requires SameExplicit(base, text, p, text', q)
    ensures LevelsOf(base, text)[p] == LevelsOf(base, text')[q]
  {
    assert LevelsOf(base, text)[p] == ExplicitLevel(base, text, p);
    assert LevelsOf(base, text')[q] == ExplicitLevel(base, text', q);
  }

  lemma HeadLevels(base: int, text: seq<BidiClass>, i: nat, j: nat, text': seq<BidiClass>, j': nat, x: seq<int>,
                   x': seq<int>)
    requires SameOutside(text, i, j, text', j') && x == LevelsOf(base, text) && x' == LevelsOf(base, text')
    ensures x[..i + 1] == x'[..i + 1]
  {
    var u, u' := x[..i + 1], x'[..i + 1];
    forall p: nat {:trigger u[p]} | p < i + 1 ensures u[p] == u'[p] {
      NoInterferenceBefore(base, text, i, j, text', j', p);
      SameLevel(base, text, p, text', p);
    }
  }

  lemma TailLevelFrom(base: int, text: seq<BidiClass>, j: nat, text': seq<BidiClass>, j': nat, m: nat)
    requires j + m < |text| && j' + m < |text'| && text[j..] == text'[j'..]
    requires text[j].PopDirectionalIsolate? && text'[j'].PopDirectionalIsolate?
    requires StateAt(base, text, j + 1) == StateAt(base, text', j' + 1)
    ensures LevelsOf(base, text)[j + m] == LevelsOf(base, text')[j' + m]
  {
    if m == 0 {
      SameAtPdi(base, text, j, text', j');
      SameLevel(base, text, j, text', j');
    } else {
      SameAfterPdi(base, text, j, text', j', m);
      SameLevel(base, text, j + m, text', j' + m);
    }
  }

  lemma TailLevel(base: int, text: seq<BidiClass>, i: nat, j: nat, text': seq<BidiClass>, j': nat, m: nat)
    requires 0 <= base <= 1 && SameOutside(text, i, j, text', j') && j + m < |text|
    requires AcceptedTo(base, text, j) && AcceptedTo(base, text', j')
    ensures j' + m < |text'| && LevelsOf(base, text)[j + m] == LevelsOf(base, text')[j' + m]
  {
    SameTail(text, j, text', j');
    SameStateAtEnd(base, text, i, j, text', j');
    TailLevelFrom(base, text, j, text', j', m);
  }

  lemma TailLevels(base: int, text: seq<BidiClass>, i: nat, j: nat, text': seq<BidiClass>, j': nat, x: seq<int>,
                   x': seq<int>)
    requires 0 <= base <= 1 && SameOutside(text, i, j, text', j')
    requires AcceptedTo(base, text, j) && AcceptedTo(base, text', j')
    requires x == LevelsOf(base, text) && x' == LevelsOf(base, text')
    ensures x[j..] == x'[j'..]
  {
    SameTail(text, j, text', j');
    var u, u' := x[j..], x'[j'..];
    forall m: nat {:trigger u[m]} | m < |u| ensures u[m] == u'[m] {
      TailLevel(base, text, i, j, text', j', m);
    }
  }

  lemma ExplicitMoved(base: int, text: seq<BidiClass>, i: nat, j: nat, text': seq<BidiClass>, j': nat)
    requires 0 <= base <= 1 && SameOutside(text, i, j, text', j')
    requires AcceptedTo(base, text, j) && AcceptedTo(base, text', j')
    ensures AgreeOutside(LevelsOf(base, text), i, j, LevelsOf(base, text'), j')
  {
    var x, x' := LevelsOf(base, text), LevelsOf(base, text');
    HeadLevels(base, text, i, j, text', j', x, x');
    TailLevels(base, text, i, j, text', j', x, x');
    SlicesAgree(x, i, j, x', j');
  }

  lemma ChainedTextOf(base: int, text: seq<BidiClass>, runs: seq<LevelRun>, upto: nat, sqs: seq<RunSequence>)
    returns (a: ChainedText)
    requires 0 <= base <= 1 && WellIsolated(base, text)
    requires Sequencing(base, ClassesOf(base, text), LevelsOf(base, text), runs, upto, sqs)
    ensures a == ChainedText(base, text, LevelsOf(base, text), runs, upto, sqs) && a.Valid()
    ensures ClassesOf(base, text) == text && ReadyFor(a, text, 0)
  {
    var x := LevelsOf(base, text);
    ClassesKept(base, text);
    TextLevels(base, text);
    NothingSplitIff(base, text);
    UnsplitLifts(text, x);
    AcceptedNeverPanics(base, text);
    ExplicitConsistent(base, text, text, x);
    SequencesReady(base, text, x, runs, upto, sqs);
    a := ChainedText(base, text, x, runs, upto, sqs);
  }

  /** Replacing the content of an isolate changes no final class and no final level outside it, in texts whose
      chains are the sequences of BD13 and overflow no bracket stack. */
  lemma ContentIsIsolated(base: int, table: BracketTable, i: nat, j: nat, j': nat,
                          text: seq<BidiClass>, paragraph: seq<char>, t: Trace, types: seq<BidiClass>, levels: seq<int>,
                          text': seq<BidiClass>, paragraph': seq<char>, t': Trace, types': seq<BidiClass>,
                          levels': seq<int>)
    requires 0 <= base <= 1 && WellIsolated(base, text) && WellIsolated(base, text')
    requires SameOutside(text, i, j, text', j') && CharactersAgree(paragraph, i, j, paragraph', j')
    requires Resolves(base, text, paragraph, table, t, types, levels)
    requires Resolves(base, text', paragraph', table, t', types', levels')
    requires NoOverflow(paragraph, t.sqs, t.chains) && NoOverflow(paragraph', t'.sqs, t'.chains)
    ensures AgreeOutside(types, i, j, types', j') && AgreeOutside(levels, i, j, levels', j')
  {
    var a := ChainedTextOf(base, text, t.runs, t.upto, t.sqs);
    var b := ChainedTextOf(base, text', t'.runs, t'.upto, t'.sqs);
    SlicesAgree(text, i, j, text', j');
    AcceptedPrefix(base, text, j);
    AcceptedPrefix(base, text', j');
    ExplicitMoved(base, text, i, j, text', j');
    TypesMoved(a, i, j, b, j', paragraph, paragraph', table, t.chains, t'.chains, t.stages, t'.stages);
    ImplicitMoved(a.x, types, levels, i, j, b.x, types', levels', j');
  }
}
