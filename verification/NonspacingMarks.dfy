/** Rule W1 after an isolate control: where the code departs from UAX #9, and why the result of the
    rules is the same. */
module NonspacingMarks {
  import opened Options
  import opened BidiTypes
  import opened LevelRuns
  import opened Chains
  import opened WeakTypes
  import opened Neutrals
  import opened Brackets
  import opened ChainRules
  import opened BracketRules
  import opened Resolution

  /** W1 as UAX #9 states it: a nonspacing mark becomes ON after an isolate control, and else takes the
      class that the rule has given the character before it, or sos. */
  function StandardW1At(g: seq<BidiClass>, lv: seq<int>, sos: BidiClass, k: nat): BidiClass
    requires k < |g| == |lv|
    decreases k
  {
    var p := PrevVisible(lv, k);
    if !g[k].NonspacingMark? then g[k]
    else if p < 0 then sos
    else if g[p].IsIsoControl() then OtherNeutral
    else StandardW1At(g, lv, sos, p)
  }

  function StandardW1(g: seq<BidiClass>, lv: seq<int>, sq: RunSequence): (r: seq<BidiClass>)
    requires |g| == |lv|
    ensures |r| == |g|
  {
    seq(|g|, k requires 0 <= k < |g| => StandardW1At(g, lv, sq.sos, k))
  }

  function StandardW1Rule(): Rule {
    (g: seq<BidiClass>, lv: seq<int>, sq: RunSequence) => if |g| == |lv| then StandardW1(g, lv, sq) else g
  }

  // ---------------------------------------------------------------- where the code departs

  lemma {:induction false} BaseOfPrevious(g: seq<BidiClass>, lv: seq<int>, sos: BidiClass, k: nat)
    requires k <= |g| == |lv|
    ensures var p := PrevVisible(lv, k);
            MarkBase(g, lv, sos, k) ==
              if p < 0 then sos else if g[p].NonspacingMark? then MarkBase(g, lv, sos, p) else g[p]
    decreases k
  {
    if 0 < k && !Visible(lv[k - 1]) {
      BaseOfPrevious(g, lv, sos, k - 1);
    }
  }

  lemma {:induction false} StandardMark(g: seq<BidiClass>, lv: seq<int>, sos: BidiClass, k: nat)
    requires k < |g| == |lv| && !sos.IsIsoControl() && g[k].NonspacingMark?
    ensures var c := MarkBase(g, lv, sos, k);
            StandardW1At(g, lv, sos, k) == if c.IsIsoControl() then OtherNeutral else c
    decreases k
  {
    var p := PrevVisible(lv, k);
    BaseOfPrevious(g, lv, sos, k);
    if 0 <= p && g[p].NonspacingMark? {
      StandardMark(g, lv, sos, p);
    }
  }

  /** A nonspacing mark that the last visible character before it and its marks, an isolate control,
      lends its class. */
  predicate TakesControl(g: seq<BidiClass>, lv: seq<int>, sos: BidiClass, k: nat)
    requires k < |g| == |lv|
  {
    g[k].NonspacingMark? && MarkBase(g, lv, sos, k).IsIsoControl()
  }

  lemma DepartsAt(g: seq<BidiClass>, lv: seq<int>, sos: BidiClass, k: nat)
    requires k < |g| == |lv| && !sos.IsIsoControl()
    ensures W1At(g, lv, sos, k) == StandardW1At(g, lv, sos, k) <==> !TakesControl(g, lv, sos, k)
    ensures AlikeAt(W1At(g, lv, sos, k), StandardW1At(g, lv, sos, k))
  {
    if g[k].NonspacingMark? {
      StandardMark(g, lv, sos, k);
    }
  }

  /** The code meets W1 of UAX #9 on a chain exactly when no mark follows an isolate control. */
  lemma MeetsStandardIff(g: seq<BidiClass>, lv: seq<int>, sq: RunSequence, r: seq<BidiClass>)
    requires |g| == |lv| && SidesKnown(sq) && r == ApplyRule(W1, g, lv, sq)
    ensures r == StandardW1(g, lv, sq) <==>
      forall k {:trigger TakesControl(g, lv, sq.sos, k)} :: 0 <= k < |g| ==> !TakesControl(g, lv, sq.sos, k)
  {
    var s := StandardW1(g, lv, sq);
    forall k {:trigger r[k]} {:trigger TakesControl(g, lv, sq.sos, k)} | 0 <= k < |g|
      ensures r[k] == s[k] <==> !TakesControl(g, lv, sq.sos, k)
    {
      DepartsAt(g, lv, sq.sos, k);
    }
  }

  function MarkAfterControl(): (g: seq<BidiClass>)
    ensures |g| == 2 && g[0] == PopDirectionalIsolate && g[1] == NonspacingMark
  {
    [PopDirectionalIsolate, NonspacingMark]
  }

  /** A mark after a PDI. */
  lemma MarkDeparts(sq: RunSequence, r: seq<BidiClass>)
    requires SidesKnown(sq) && r == ApplyRule(W1, MarkAfterControl(), [0, 0], sq)
    ensures r[1] == PopDirectionalIsolate && StandardW1(MarkAfterControl(), [0, 0], sq)[1] == OtherNeutral
  {
    var g, lv := MarkAfterControl(), [0, 0];
    assert Visible(lv[0]) && Visible(lv[1]);
    assert MarkBase(g, lv, sq.sos, 1) == g[0];
    assert PrevVisible(lv, 1) == 0;
    assert r[1] == RuleAt(W1, g, lv, sq, 1);
  }

  // ---------------------------------------------------------------- the rules cannot tell

  predicate AlikeAt(a: BidiClass, b: BidiClass) {
    a == b || (a.IsIsoControl() && b.OtherNeutral?)
  }

  /** Equal but for isolate controls in place of ON, where no bracket stands. */
  ghost predicate Alike(a: seq<BidiClass>, b: seq<BidiClass>, chars: seq<char>, table: BracketTable) {
    && |a| == |b| && (chars == [] || |chars| == |a|)
    && forall k {:trigger a[k]} {:trigger b[k]} :: 0 <= k < |a| ==>
         a[k] == b[k] || (AlikeAt(a[k], b[k]) && (chars != [] ==> table(chars[k]) == None))
  }

  lemma {:induction false} AlikeStrong(a: seq<BidiClass>, b: seq<BidiClass>, al: bool, sos: BidiClass, k: nat)
    requires |a| == |b| && k <= |a| && forall j {:trigger a[j]} :: 0 <= j < |a| ==> AlikeAt(a[j], b[j])
    ensures LastStrong(a, al, sos, k) == LastStrong(b, al, sos, k)
    decreases k
  {
    if 0 < k {
      assert AlikeAt(a[k - 1], b[k - 1]);
      AlikeStrong(a, b, al, sos, k - 1);
    }
  }

  lemma AlikeTouched(a: seq<BidiClass>, b: seq<BidiClass>, lv: seq<int>, k: nat)
    requires |a| == |b| == |lv|
    requires forall j {:trigger a[j]} {:trigger b[j]} :: 0 <= j < |a| ==> AlikeAt(a[j], b[j])
    ensures Touched(a, lv, k, |a|) == Touched(b, lv, k, |b|)
  {
    if Touched(a, lv, k, |a|) {
      var q :| 0 <= q < |a| && a[q].EuropeanNumber? && Joined(a, lv, k, q);
      assert b[q].EuropeanNumber? && Joined(b, lv, k, q);
    }
    if Touched(b, lv, k, |b|) {
      var q :| 0 <= q < |b| && b[q].EuropeanNumber? && Joined(b, lv, k, q);
      assert a[q].EuropeanNumber? && Joined(a, lv, k, q);
    }
  }

  lemma {:induction false} AlikePrior(a: seq<BidiClass>, b: seq<BidiClass>, lv: seq<int>, sos: BidiClass, k: nat)
    requires |a| == |b| == |lv| && k <= |a| && forall j {:trigger a[j]} :: 0 <= j < |a| ==> AlikeAt(a[j], b[j])
    ensures PriorDirection(a, lv, sos, k) == PriorDirection(b, lv, sos, k)
    decreases k
  {
    if 0 < k {
      assert AlikeAt(a[k - 1], b[k - 1]);
      AlikePrior(a, b, lv, sos, k - 1);
    }
  }

  lemma {:induction false} AlikeFollowing(a: seq<BidiClass>, b: seq<BidiClass>, lv: seq<int>, eos: BidiClass, k: nat)
    requires |a| == |b| == |lv| && k <= |a| && forall j {:trigger a[j]} :: 0 <= j < |a| ==> AlikeAt(a[j], b[j])
    ensures FollowingDirection(a, lv, eos, k) == FollowingDirection(b, lv, eos, k)
    decreases |a| - k
  {
    if k < |a| {
      assert AlikeAt(a[k], b[k]);
      AlikeFollowing(a, b, lv, eos, k + 1);
    }
  }

  ghost predicate AllAlike(a: seq<BidiClass>, b: seq<BidiClass>) {
    && |a| == |b|
    && forall j {:trigger a[j]} {:trigger b[j]} :: 0 <= j < |a| ==> AlikeAt(a[j], b[j])
  }

  lemma AlikeSeparators(a: seq<BidiClass>, b: seq<BidiClass>, lv: seq<int>, k: nat)
    requires AllAlike(a, b) && k < |a| == |lv|
    ensures AlikeAt(W4At(a, lv, k), W4At(b, lv, k)) && (a[k] == b[k] ==> W4At(a, lv, k) == W4At(b, lv, k))
  {
    assert AlikeAt(a[k], b[k]);
  }

  lemma AlikeNeutrals(a: seq<BidiClass>, b: seq<BidiClass>, lv: seq<int>, sq: RunSequence, k: nat)
    requires AllAlike(a, b) && k < |a| == |lv|
    ensures var x, y := N1At(a, lv, sq.sos, sq.eos, k), N1At(b, lv, sq.sos, sq.eos, k);
            AlikeAt(x, y) && (a[k] == b[k] ==> x == y)
  {
    AlikePrior(a, b, lv, sq.sos, k);
    AlikeFollowing(a, b, lv, sq.eos, k + 1);
    BetweenAlike(a[k], b[k], PriorDirection(a, lv, sq.sos, k), FollowingDirection(a, lv, sq.eos, k + 1));
  }

  lemma BetweenAlike(c: BidiClass, d: BidiClass, before: Option<Direction>, after: Option<Direction>)
    requires AlikeAt(c, d)
    ensures AlikeAt(BetweenDirections(c, before, after), BetweenDirections(d, before, after))
  {
  }

  /** No rule after W1 tells the two chains apart, and N2 leaves no difference. */
  lemma AlikeRule(name: RuleName, a: seq<BidiClass>, b: seq<BidiClass>, lv: seq<int>, sq: RunSequence, k: nat)
    requires name != W1 && k < |a| == |lv| && AllAlike(a, b)
    ensures var x, y := RuleAt(name, a, lv, sq, k), RuleAt(name, b, lv, sq, k);
            AlikeAt(x, y) && (a[k] == b[k] || name == N2 ==> x == y)
  {
    assert AlikeAt(a[k], b[k]);
    match name {
      case W2 => AlikeStrong(a, b, true, sq.sos, k);
      case W4 => AlikeSeparators(a, b, lv, k);
      case W5 => AlikeTouched(a, b, lv, k);
      case W7 => AlikeStrong(a, b, false, sq.sos, k);
      case N1 => AlikeNeutrals(a, b, lv, sq, k);
      case _ =>
    }
  }

  lemma AlikeAfter(name: RuleName, a: seq<BidiClass>, b: seq<BidiClass>, chars: seq<char>, table: BracketTable,
                   lv: seq<int>, sq: RunSequence, a': seq<BidiClass>, b': seq<BidiClass>)
    requires name != W1 && |a| == |lv| && Alike(a, b, chars, table)
    requires a' == ApplyRule(name, a, lv, sq) && b' == ApplyRule(name, b, lv, sq)
    ensures Alike(a', b', chars, table) && (name == N2 ==> a' == b')
  {
    forall k {:trigger a'[k]} {:trigger b'[k]} | 0 <= k < |a|
      ensures AlikeAt(a'[k], b'[k]) && (a[k] == b[k] || name == N2 ==> a'[k] == b'[k])
    {
      AlikeRule(name, a, b, lv, sq, k);
    }
  }

  // ---------------------------------------------------------------- nor can N0

  lemma {:induction false} AlikePairing(a: seq<BidiClass>, b: seq<BidiClass>, chars: seq<char>, table: BracketTable,
                                        k: nat)
    requires Alike(a, b, chars, table) && |chars| == |a| && k <= |a|
    ensures Bd16(chars, a, table, k) == Bd16(chars, b, table, k)
    decreases k
  {
    if 0 < k {
      AlikePairing(a, b, chars, table, k - 1);
      assert a[k - 1] == b[k - 1] || table(chars[k - 1]) == None;
    }
  }

  lemma AlikeOverflow(a: seq<BidiClass>, b: seq<BidiClass>, chars: seq<char>, table: BracketTable)
    requires Alike(a, b, chars, table) && |chars| == |a|
    ensures Overflows(chars, a, table, |a|) == Overflows(chars, b, table, |b|)
  {
    forall j {:trigger OverflowsAt(chars, a, table, j)} {:trigger OverflowsAt(chars, b, table, j)} | 0 <= j < |a|
      ensures OverflowsAt(chars, a, table, j) == OverflowsAt(chars, b, table, j)
    {
      AlikePairing(a, b, chars, table, j);
      assert a[j] == b[j] || table(chars[j]) == None;
    }
  }

  lemma AlikeInside(a: seq<BidiClass>, b: seq<BidiClass>, pair: Pair, d: Direction)
    requires pair.openingPos < pair.closingPos < |a| == |b|
    requires forall j {:trigger a[j]} {:trigger b[j]} :: 0 <= j < |a| ==> AlikeAt(a[j], b[j])
    ensures StrongInside(a, pair, d) == StrongInside(b, pair, d)
  {
    if StrongInside(a, pair, d) {
      var k :| pair.openingPos < k < pair.closingPos && StrongDirection(a[k]) == Some(d);
      assert StrongDirection(b[k]) == Some(d);
    }
    if StrongInside(b, pair, d) {
      var k :| pair.openingPos < k < pair.closingPos && StrongDirection(b[k]) == Some(d);
      assert StrongDirection(a[k]) == Some(d);
    }
  }

  lemma AlikeDirection(a: seq<BidiClass>, b: seq<BidiClass>, lv: seq<int>, sos: BidiClass, embedding: Direction,
                       pair: Pair)
    requires pair.openingPos < pair.closingPos < |a| == |b| == |lv|
    requires forall j {:trigger a[j]} {:trigger b[j]} :: 0 <= j < |a| ==> AlikeAt(a[j], b[j])
    ensures PairDirection(a, lv, sos, embedding, pair) == PairDirection(b, lv, sos, embedding, pair)
  {
    AlikeInside(a, b, pair, embedding);
    AlikeInside(a, b, pair, embedding.Opposite());
    AlikePrior(a, b, lv, sos, pair.openingPos);
  }

  lemma {:induction false} AlikePairs(a: seq<BidiClass>, b: seq<BidiClass>, chars: seq<char>, table: BracketTable,
                                      orig: seq<BidiClass>, lv: seq<int>, sos: BidiClass, embedding: Direction,
                                      pairs: seq<Pair>)
    requires Alike(a, b, chars, table) && |a| == |orig| == |lv| && PairsFit(pairs, |a|)
    ensures Alike(ResolvePairs(a, orig, lv, sos, embedding, pairs), ResolvePairs(b, orig, lv, sos, embedding, pairs),
                  chars, table)
    decreases |pairs|
  {
    if pairs != [] {
      var n := |pairs| - 1;
      AlikePairs(a, b, chars, table, orig, lv, sos, embedding, pairs[..n]);
      AlikeDirection(ResolvePairs(a, orig, lv, sos, embedding, pairs[..n]),
                     ResolvePairs(b, orig, lv, sos, embedding, pairs[..n]), lv, sos, embedding, pairs[n]);
    }
  }

  lemma AlikeBrackets(a: seq<BidiClass>, b: seq<BidiClass>, chars: seq<char>, table: BracketTable,
                      orig: seq<BidiClass>, lv: seq<int>, sq: RunSequence)
    requires Alike(a, b, chars, table) && |a| == |chars| == |orig| == |lv|
    ensures Alike(ResolveBrackets(a, chars, orig, lv, sq, table), ResolveBrackets(b, chars, orig, lv, sq, table),
                  chars, table)
  {
    AlikePairing(a, b, chars, table, |a|);
    AlikePairs(a, b, chars, table, orig, lv, sq.sos, DirectionOf(sq.level), PairsOf(chars, a, table));
  }

  // ---------------------------------------------------------------- all chains of a paragraph

  /** W1 to N2 with the first rule as UAX #9 states it. */
  ghost predicate StandardResolved(orig: seq<BidiClass>, paragraph: seq<char>, table: BracketTable, levels: seq<int>,
                                   sqs: seq<RunSequence>, n: nat, c: Stages)
  {
    && Applied(StandardW1Rule(), c.x8, c.w1, levels, sqs, |sqs|)
    && RuleApplied(W2, levels, sqs, c.w1, c.w2) && RuleApplied(W3, levels, sqs, c.w2, c.w3)
    && RuleApplied(W4, levels, sqs, c.w3, c.w4) && RuleApplied(W5, levels, sqs, c.w4, c.w5)
    && RuleApplied(W6, levels, sqs, c.w5, c.w6) && RuleApplied(W7, levels, sqs, c.w6, c.w7)
    && BracketsApplied(orig, paragraph, table, levels, sqs, n, c.w7, c.n0)
    && RuleApplied(N1, levels, sqs, c.n0, c.n1) && RuleApplied(N2, levels, sqs, c.n1, c.n2)
  }

  /** The characters of a chain, when those of the paragraph are known. */
  function CharsOf(paragraph: seq<char>, idx: seq<nat>): (chars: seq<char>)
    requires paragraph == [] || InBounds(idx, |paragraph|)
    ensures paragraph != [] ==> |chars| == |idx| && chars == Gather(paragraph, idx)
  {
    if paragraph == [] then [] else Gather(paragraph, idx)
  }

  /** The two paragraphs are alike, and the same off the chains. */
  ghost predicate AlikeText(a: seq<BidiClass>, b: seq<BidiClass>, paragraph: seq<char>, table: BracketTable,
                            sqs: seq<RunSequence>)
  {
    && |a| == |b| && ChainsOf(sqs, |a|) && (paragraph == [] || |paragraph| == |a|)
    && (forall s {:trigger sqs[s]} :: 0 <= s < |sqs| ==>
          Alike(Gather(a, sqs[s].indices), Gather(b, sqs[s].indices), CharsOf(paragraph, sqs[s].indices), table))
    && (forall i {:trigger OutsideChains(sqs, i)} :: 0 <= i < |a| && OutsideChains(sqs, i) ==> a[i] == b[i])
  }

  lemma AlikeTextAfter(name: RuleName, a: seq<BidiClass>, b: seq<BidiClass>, paragraph: seq<char>,
                       table: BracketTable, levels: seq<int>, sqs: seq<RunSequence>, a': seq<BidiClass>,
                       b': seq<BidiClass>)
    requires name != W1 && AlikeText(a, b, paragraph, table, sqs)
    requires RuleApplied(name, levels, sqs, a, a') && RuleApplied(name, levels, sqs, b, b')
    ensures AlikeText(a', b', paragraph, table, sqs)
    ensures name == N2 ==> forall s {:trigger sqs[s]} :: 0 <= s < |sqs| ==>
      Gather(a', sqs[s].indices) == Gather(b', sqs[s].indices)
  {
    forall s {:trigger sqs[s]} | 0 <= s < |sqs|
      ensures Alike(Gather(a', sqs[s].indices), Gather(b', sqs[s].indices), CharsOf(paragraph, sqs[s].indices), table)
      ensures name == N2 ==> Gather(a', sqs[s].indices) == Gather(b', sqs[s].indices)
    {
      var idx := sqs[s].indices;
      assert Gather(a', idx) == RuleOn(RuleOf(name), a, levels, sqs, s);
      assert Gather(b', idx) == RuleOn(RuleOf(name), b, levels, sqs, s);
      AlikeAfter(name, Gather(a, idx), Gather(b, idx), CharsOf(paragraph, idx), table, Gather(levels, idx), sqs[s],
                 Gather(a', idx), Gather(b', idx));
    }
  }

  lemma HaltsAlike(a: seq<BidiClass>, b: seq<BidiClass>, paragraph: seq<char>, table: BracketTable,
                   sqs: seq<RunSequence>, m: nat, n: nat)
    requires AlikeText(a, b, paragraph, table, sqs) && |paragraph| == |a| && paragraph != []
    requires HaltsAt(a, paragraph, table, sqs, m) && HaltsAt(b, paragraph, table, sqs, n)
    ensures m == n
  {
    forall s {:trigger sqs[s]} | 0 <= s < |sqs|
      ensures ChainOverflows(a, paragraph, table, sqs[s].indices) == ChainOverflows(b, paragraph, table, sqs[s].indices)
    {
      var idx := sqs[s].indices;
      if idx != [] {
        AlikeOverflow(Gather(a, idx), Gather(b, idx), Gather(paragraph, idx), table);
      }
    }
  }

  lemma AlikeTextBrackets(orig: seq<BidiClass>, paragraph: seq<char>, table: BracketTable, levels: seq<int>,
                          sqs: seq<RunSequence>, m: nat, n: nat, a: seq<BidiClass>, a': seq<BidiClass>,
                          b: seq<BidiClass>, b': seq<BidiClass>)
    requires AlikeText(a, b, paragraph, table, sqs)
    requires BracketsApplied(orig, paragraph, table, levels, sqs, m, a, a')
    requires BracketsApplied(orig, paragraph, table, levels, sqs, n, b, b')
    ensures AlikeText(a', b', paragraph, table, sqs)
  {
    if paragraph != [] {
      HaltsAlike(a, b, paragraph, table, sqs, m, n);
      forall s {:trigger sqs[s]} | 0 <= s < |sqs|
        ensures Alike(Gather(a', sqs[s].indices), Gather(b', sqs[s].indices), CharsOf(paragraph, sqs[s].indices), table)
      {
        AlikeChainBrackets(orig, paragraph, table, levels, sqs, n, a, a', b, b', s);
      }
    }
  }

  lemma AlikeChainBrackets(orig: seq<BidiClass>, paragraph: seq<char>, table: BracketTable, levels: seq<int>,
                           sqs: seq<RunSequence>, n: nat, a: seq<BidiClass>, a': seq<BidiClass>,
                           b: seq<BidiClass>, b': seq<BidiClass>, s: nat)
    requires AlikeText(a, b, paragraph, table, sqs) && paragraph != [] && |orig| == |paragraph| && s < |sqs|
    requires Applied(BracketRule(orig, paragraph, table), a, a', levels, sqs, n)
    requires Applied(BracketRule(orig, paragraph, table), b, b', levels, sqs, n)
    ensures Alike(Gather(a', sqs[s].indices), Gather(b', sqs[s].indices), CharsOf(paragraph, sqs[s].indices), table)
  {
    var idx, rule := sqs[s].indices, BracketRule(orig, paragraph, table);
    var g, h, lv := Gather(a, idx), Gather(b, idx), Gather(levels, idx);
    assert Alike(g, h, CharsOf(paragraph, idx), table);
    if s < n {
      assert Gather(a', idx) == RuleOn(rule, a, levels, sqs, s);
      assert Gather(b', idx) == RuleOn(rule, b, levels, sqs, s);
      AlikeBrackets(g, h, Gather(paragraph, idx), table, Gather(orig, idx), lv, sqs[s]);
    }
  }

  /** No bracket character is a nonspacing mark. */
  ghost predicate MarksAreNoBrackets(types: seq<BidiClass>, paragraph: seq<char>, table: BracketTable) {
    forall k {:trigger types[k]} :: 0 <= k < |types| && k < |paragraph| && types[k].NonspacingMark? ==>
      table(paragraph[k]) == None
  }

  lemma FirstRuleAlike(types: seq<BidiClass>, paragraph: seq<char>, table: BracketTable, levels: seq<int>,
                       sqs: seq<RunSequence>, a: seq<BidiClass>, b: seq<BidiClass>)
    requires ChainsReady(types, levels, sqs) && (paragraph == [] || |paragraph| == |types|)
    requires MarksAreNoBrackets(types, paragraph, table)
    requires RuleApplied(W1, levels, sqs, types, a) && Applied(StandardW1Rule(), types, b, levels, sqs, |sqs|)
    ensures AlikeText(a, b, paragraph, table, sqs)
  {
    forall s {:trigger sqs[s]} | 0 <= s < |sqs|
      ensures Alike(Gather(a, sqs[s].indices), Gather(b, sqs[s].indices), CharsOf(paragraph, sqs[s].indices), table)
    {
      FirstRuleChain(types, paragraph, table, levels, sqs, a, b, s);
    }
  }

  lemma FirstRuleChain(types: seq<BidiClass>, paragraph: seq<char>, table: BracketTable, levels: seq<int>,
                       sqs: seq<RunSequence>, a: seq<BidiClass>, b: seq<BidiClass>, s: nat)
    requires ChainsReady(types, levels, sqs) && (paragraph == [] || |paragraph| == |types|) && s < |sqs|
    requires MarksAreNoBrackets(types, paragraph, table)
    requires RuleApplied(W1, levels, sqs, types, a) && Applied(StandardW1Rule(), types, b, levels, sqs, |sqs|)
    ensures Alike(Gather(a, sqs[s].indices), Gather(b, sqs[s].indices), CharsOf(paragraph, sqs[s].indices), table)
  {
    var idx := sqs[s].indices;
    var g, lv := Gather(types, idx), Gather(levels, idx);
    var x, y := Gather(a, idx), Gather(b, idx);
    assert x == RuleOn(RuleOf(W1), types, levels, sqs, s) && y == RuleOn(StandardW1Rule(), types, levels, sqs, s);
    forall k {:trigger x[k]} {:trigger y[k]} | 0 <= k < |idx|
      ensures AlikeAt(x[k], y[k]) && (x[k] != y[k] ==> g[k].NonspacingMark?)
    {
      DepartsAt(g, lv, sqs[s].sos, k);
      assert x[k] == RuleAt(W1, g, lv, sqs[s], k);
    }
    forall k {:trigger x[k]} | 0 <= k < |idx| && g[k].NonspacingMark? && paragraph != []
      ensures table(CharsOf(paragraph, idx)[k]) == None
    {
      assert types[idx[k]].NonspacingMark?;
    }
  }

  lemma AlikeUntilBrackets(paragraph: seq<char>, table: BracketTable, levels: seq<int>, sqs: seq<RunSequence>,
                           c: Stages, d: Stages)
    requires AlikeText(c.w1, d.w1, paragraph, table, sqs)
    requires RuleApplied(W2, levels, sqs, c.w1, c.w2) && RuleApplied(W2, levels, sqs, d.w1, d.w2)
    requires RuleApplied(W3, levels, sqs, c.w2, c.w3) && RuleApplied(W3, levels, sqs, d.w2, d.w3)
    requires RuleApplied(W4, levels, sqs, c.w3, c.w4) && RuleApplied(W4, levels, sqs, d.w3, d.w4)
    requires RuleApplied(W5, levels, sqs, c.w4, c.w5) && RuleApplied(W5, levels, sqs, d.w4, d.w5)
    requires RuleApplied(W6, levels, sqs, c.w5, c.w6) && RuleApplied(W6, levels, sqs, d.w5, d.w6)
    requires RuleApplied(W7, levels, sqs, c.w6, c.w7) && RuleApplied(W7, levels, sqs, d.w6, d.w7)
    ensures AlikeText(c.w7, d.w7, paragraph, table, sqs)
  {
    AlikeTextAfter(W2, c.w1, d.w1, paragraph, table, levels, sqs, c.w2, d.w2);
    AlikeTextAfter(W3, c.w2, d.w2, paragraph, table, levels, sqs, c.w3, d.w3);
    AlikeTextAfter(W4, c.w3, d.w3, paragraph, table, levels, sqs, c.w4, d.w4);
    AlikeTextAfter(W5, c.w4, d.w4, paragraph, table, levels, sqs, c.w5, d.w5);
    AlikeTextAfter(W6, c.w5, d.w5, paragraph, table, levels, sqs, c.w6, d.w6);
    AlikeTextAfter(W7, c.w6, d.w6, paragraph, table, levels, sqs, c.w7, d.w7);
  }

  /** The departure from W1 is harmless: with W1 of UAX #9 in its place a paragraph gets the same
      classes. */
  lemma DepartureIsHarmless(orig: seq<BidiClass>, paragraph: seq<char>, table: BracketTable, levels: seq<int>,
                            sqs: seq<RunSequence>, m: nat, c: Stages, n: nat, d: Stages)
    requires c.x8 == d.x8 && ChainsReady(c.x8, levels, sqs) && (paragraph == [] || |paragraph| == |c.x8|)
    requires MarksAreNoBrackets(c.x8, paragraph, table)
    requires TypesResolved(orig, paragraph, table, levels, sqs, m, c)
    requires StandardResolved(orig, paragraph, table, levels, sqs, n, d)
    ensures c.n2 == d.n2
  {
    FirstRuleAlike(c.x8, paragraph, table, levels, sqs, c.w1, d.w1);
    AlikeUntilBrackets(paragraph, table, levels, sqs, c, d);
    AlikeTextBrackets(orig, paragraph, table, levels, sqs, m, n, c.w7, c.n0, d.w7, d.n0);
    AlikeTextAfter(N1, c.n0, d.n0, paragraph, table, levels, sqs, c.n1, d.n1);
    AlikeTextAfter(N2, c.n1, d.n1, paragraph, table, levels, sqs, c.n2, d.n2);
    SameByChains(c.n2, d.n2, sqs);
  }
}
