/** BD16 on a chain that overflows the bracket stack.  By section 3.1.3 of UAX #9 pairing stops there for the
    rest of the sequence, and the pairs found so far are resolved; the code resolves none of them. */
module OverflowingChains {
  import opened BidiTypes
  import opened LevelRuns
  import opened Chains
  import opened Brackets
  import opened ChainRules
  import opened BracketRules
  import opened BracketOverflow

  /** The first position from `k` on at which an opening bracket finds 63 open, or the end of the chain. */
  function OverflowPoint(chars: seq<char>, g: seq<BidiClass>, table: BracketTable, k: nat): (p: nat)
    requires k <= |chars| == |g|
    ensures k <= p <= |g|
    ensures p < |g| ==> OverflowsAt(chars, g, table, p)
    ensures forall j {:trigger OverflowsAt(chars, g, table, j)} :: k <= j < p ==> !OverflowsAt(chars, g, table, j)
    decreases |g| - k
  {
    if k == |g| || OverflowsAt(chars, g, table, k) then k else OverflowPoint(chars, g, table, k + 1)
  }

  /** The pairs found before an overflow, in the order in which they are resolved. */
  function PairsBefore(chars: seq<char>, g: seq<BidiClass>, table: BracketTable): (pairs: seq<Pair>)
    requires |chars| == |g|
    ensures PairsFit(pairs, |g|)
  {
    var p := OverflowPoint(chars, g, table, 0);
    Bd16WellPaired(chars, g, table, p);
    SortPairsFit(Bd16(chars, g, table, p).pairs, |g|);
    SortPairs(Bd16(chars, g, table, p).pairs)
  }

  ghost function ResolveBefore(g: seq<BidiClass>, chars: seq<char>, orig: seq<BidiClass>, lv: seq<int>,
                               sq: RunSequence, table: BracketTable): (r: seq<BidiClass>)
    requires |g| == |chars| == |orig| == |lv|
    ensures |r| == |g|
  {
    ResolvePairs(g, orig, lv, sq.sos, DirectionOf(sq.level), PairsBefore(chars, g, table))
  }

  /** N0 with BD16 as section 3.1.3 of UAX #9 has it */
  ghost function StandardRule(orig: seq<BidiClass>, text: seq<char>, table: BracketTable): Rule
    requires |orig| == |text|
  {
    (g: seq<BidiClass>, lv: seq<int>, sq: RunSequence) =>
      if InBounds(sq.indices, |text|) && |g| == |lv| == |sq.indices|
      then ResolveBefore(g, Gather(text, sq.indices), Gather(orig, sq.indices), lv, sq, table)
      else g
  }

  lemma EndOrOverflow(chars: seq<char>, g: seq<BidiClass>, table: BracketTable)
    requires |chars| == |g|
    ensures OverflowPoint(chars, g, table, 0) == |g| || Overflows(chars, g, table, |g|)
  {
  }

  /** Without an overflow the two agree. */
  lemma StandardWithout(orig: seq<BidiClass>, before: seq<BidiClass>, text: seq<char>, table: BracketTable,
                        levels: seq<int>, sqs: seq<RunSequence>, s: nat)
    requires |orig| == |text| == |before| == |levels| && s < |sqs| && InBounds(sqs[s].indices, |text|)
    requires !ChainOverflows(before, text, table, sqs[s].indices)
    ensures RuleOn(StandardRule(orig, text, table), before, levels, sqs, s) ==
      RuleOn(BracketRule(orig, text, table), before, levels, sqs, s)
  {
    var g, chars := Gather(before, sqs[s].indices), Gather(text, sqs[s].indices);
    EndOrOverflow(chars, g, table);
  }

  lemma StandardOnChainIff(orig: seq<BidiClass>, before: seq<BidiClass>, text: seq<char>, table: BracketTable,
                           levels: seq<int>, sqs: seq<RunSequence>, n: nat, a: seq<BidiClass>, b: seq<BidiClass>,
                           s: nat)
    requires |orig| == |text| && HaltsAt(before, text, table, sqs, n) && s < |sqs|
    requires Applied(BracketRule(orig, text, table), before, a, levels, sqs, n)
    requires Applied(StandardRule(orig, text, table), before, b, levels, sqs, |sqs|)
    ensures Gather(a, sqs[s].indices) == Gather(b, sqs[s].indices)
      <==> (n <= s ==>
            RuleOn(StandardRule(orig, text, table), before, levels, sqs, s) == Gather(before, sqs[s].indices))
  {
    AppliedValue(BracketRule(orig, text, table), before, a, levels, sqs, n, s);
    AppliedValue(StandardRule(orig, text, table), before, b, levels, sqs, |sqs|, s);
    if s < n {
      StandardWithout(orig, before, text, table, levels, sqs, s);
    }
  }

  /** The result is the one of UAX #9, if and only if the pairs that BD16 finds before an overflow, or at all,
      change nothing on the first chain that overflows and on every chain after it. */
  lemma StandardOverflowIff(orig: seq<BidiClass>, before: seq<BidiClass>, text: seq<char>, table: BracketTable,
                            levels: seq<int>, sqs: seq<RunSequence>, n: nat, a: seq<BidiClass>, b: seq<BidiClass>)
    requires |orig| == |text| && HaltsAt(before, text, table, sqs, n)
    requires Applied(BracketRule(orig, text, table), before, a, levels, sqs, n)
    requires Applied(StandardRule(orig, text, table), before, b, levels, sqs, |sqs|)
    ensures a == b <==> forall s {:trigger sqs[s]} :: n <= s < |sqs| ==>
      RuleOn(StandardRule(orig, text, table), before, levels, sqs, s) == Gather(before, sqs[s].indices)
  {
    forall s {:trigger sqs[s]} | 0 <= s < |sqs|
      ensures Gather(a, sqs[s].indices) == Gather(b, sqs[s].indices)
        <==> (n <= s ==>
              RuleOn(StandardRule(orig, text, table), before, levels, sqs, s) == Gather(before, sqs[s].indices))
    {
      StandardOnChainIff(orig, before, text, table, levels, sqs, n, a, b, s);
    }
    if forall s {:trigger sqs[s]} :: 0 <= s < |sqs| ==> Gather(a, sqs[s].indices) == Gather(b, sqs[s].indices) {
      SameByChains(a, b, sqs);
    }
  }

  // ---------------------------------------------------------------- a chain that loses an earlier pair

  /** A bracket pair around one letter and before another, and 64 opening brackets, all at level 1. */
  ghost predicate IsCrowdedAfter(g: seq<BidiClass>, c: seq<char>, lv: seq<int>) {
    && |g| == |c| == |lv| == 4 + CROWD
    && IsPairedChain(g[..4], c[..4], lv[..4])
    && forall k {:trigger g[k]} {:trigger c[k]} {:trigger lv[k]} :: 4 <= k < |g| ==>
         g[k] == OtherNeutral && c[k] == '(' && lv[k] == 1
  }

  lemma CrowdedAfterHead(g: seq<BidiClass>, c: seq<char>, lv: seq<int>)
    requires IsCrowdedAfter(g, c, lv)
    ensures g[0] == g[2] == OtherNeutral && g[1] == g[3] == LeftToRight && c[0] == '(' && c[2] == ')'
    ensures lv[0] == lv[1] == lv[2] == lv[3] == 1
  {
    assert g[..4][0] == g[0] && g[..4][1] == g[1] && g[..4][2] == g[2] && g[..4][3] == g[3];
    assert c[..4][0] == c[0] && c[..4][2] == c[2];
    assert lv[..4][0] == lv[0] && lv[..4][1] == lv[1] && lv[..4][2] == lv[2] && lv[..4][3] == lv[3];
  }

  lemma PairFirst(g: seq<BidiClass>, c: seq<char>, lv: seq<int>, table: BracketTable)
    requires IsCrowdedAfter(g, c, lv) && KnowsParentheses(table)
    ensures Bd16(c, g, table, 4) == BracketState([], [Pair(0, 2)])
  {
    var empty, open := BracketState([], []), BracketState([OpenBracket(')', 0)], []);
    CrowdedAfterHead(g, c, lv);
    Bd16Next(c, g, table, 0, empty);
    Bd16Next(c, g, table, 1, open);
    PairCloses(open, BracketState([], [Pair(0, 2)]));
    Bd16Next(c, g, table, 2, open);
    Bd16Next(c, g, table, 3, BracketState([], [Pair(0, 2)]));
  }

  lemma {:induction false} OnlyOpening(g: seq<BidiClass>, c: seq<char>, lv: seq<int>, table: BracketTable, k: nat)
    requires IsCrowdedAfter(g, c, lv) && KnowsParentheses(table) && 4 <= k <= |g|
    ensures Bd16(c, g, table, k).pairs == [Pair(0, 2)] && |Bd16(c, g, table, k).open| == k - 4
    decreases k
  {
    if k == 4 {
      PairFirst(g, c, lv, table);
    } else {
      OnlyOpening(g, c, lv, table, k - 1);
      assert g[k - 1] == OtherNeutral && c[k - 1] == '(';
      Bd16Next(c, g, table, k - 1, Bd16(c, g, table, k - 1));
    }
  }

  lemma CrowdedAfterPairs(g: seq<BidiClass>, c: seq<char>, lv: seq<int>, table: BracketTable)
    requires IsCrowdedAfter(g, c, lv) && KnowsParentheses(table)
    ensures Overflows(c, g, table, |g|) && PairsBefore(c, g, table) == [Pair(0, 2)]
  {
    var full := 4 + MAX_PAIRING_DEPTH;
    OnlyOpening(g, c, lv, table, full);
    assert g[full] == OtherNeutral && c[full] == '(';
    assert OverflowsAt(c, g, table, full);
    var p := OverflowPoint(c, g, table, 0);
    FewOpen(c, g, table, p);
    assert p < |g| ==> OverflowsAt(c, g, table, p);
    OnlyOpening(g, c, lv, table, p);
    OneSorted(Pair(0, 2));
  }

  /** On a right-to-left chain the closing bracket is R by UAX #9; the code leaves the pair to N1, which makes
      it L. */
  lemma EarlierPairUnresolved(g: seq<BidiClass>, c: seq<char>, orig: seq<BidiClass>, lv: seq<int>, sq: RunSequence,
                              table: BracketTable)
    requires IsCrowdedAfter(g, c, lv) && KnowsParentheses(table) && |orig| == |g|
    requires sq.level == 1 && sq.sos == RightToLeft
    ensures Overflows(c, g, table, |g|) && ResolveBefore(g, c, orig, lv, sq, table)[2] == RightToLeft
    ensures ApplyRule(N1, g, lv, sq)[2] == LeftToRight
  {
    CrowdedAfterPairs(g, c, lv, table);
    CrowdedAfterHead(g, c, lv);
    PairIsR(g, orig, lv, sq.sos);
    PairIsL(g, lv, sq, ApplyRule(N1, g, lv, sq));
  }
}
