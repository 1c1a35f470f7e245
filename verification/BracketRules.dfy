/** Rule N0 as a rule on text chains, and what it keeps. */
module BracketRules {
  import opened Options
  import opened BidiTypes
  import opened LevelRuns
  import opened Chains
  import opened WeakTypes
  import opened Brackets
  import opened ChainRules

  type BracketTable = char -> Option<Bracket>

  /** The pairs of a chain in the order in which they are resolved. */
  function PairsOf(chars: seq<char>, g: seq<BidiClass>, table: BracketTable): (pairs: seq<Pair>)
    requires |chars| == |g|
    ensures PairsFit(pairs, |g|)
  {
    Bd16WellPaired(chars, g, table, |g|);
    SortPairsFit(Bd16(chars, g, table, |g|).pairs, |g|);
    SortPairs(Bd16(chars, g, table, |g|).pairs)
  }

  ghost function ResolveBrackets(g: seq<BidiClass>, chars: seq<char>, orig: seq<BidiClass>, lv: seq<int>,
                                 sq: RunSequence, table: BracketTable): (r: seq<BidiClass>)
    requires |g| == |chars| == |orig| == |lv|
    ensures |r| == |g|
  {
    ResolvePairs(g, orig, lv, sq.sos, DirectionOf(sq.level), PairsOf(chars, g, table))
  }

  ghost function BracketRule(orig: seq<BidiClass>, text: seq<char>, table: BracketTable): Rule
    requires |orig| == |text|
  {
    (g: seq<BidiClass>, lv: seq<int>, sq: RunSequence) =>
      if InBounds(sq.indices, |text|) && |g| == |lv| == |sq.indices|
      then ResolveBrackets(g, Gather(text, sq.indices), Gather(orig, sq.indices), lv, sq, table)
      else g
  }

  /** The rule stops for good at chain `n`, the first one that overflows the bracket stack. */
  ghost predicate HaltsAt(before: seq<BidiClass>, text: seq<char>, table: BracketTable, sqs: seq<RunSequence>, n: nat) {
    && NoOverflowBefore(before, text, table, sqs, n)
    && (n < |sqs| ==> ChainOverflows(before, text, table, sqs[n].indices))
  }

  ghost predicate NoOverflowBefore(before: seq<BidiClass>, text: seq<char>, table: BracketTable,
                                   sqs: seq<RunSequence>, n: nat)
  {
    && |before| == |text| && ChainsOf(sqs, |text|) && n <= |sqs|
    && forall s {:trigger sqs[s]} :: 0 <= s < n ==> !ChainOverflows(before, text, table, sqs[s].indices)
  }

  ghost predicate ChainOverflows(before: seq<BidiClass>, text: seq<char>, table: BracketTable, idx: seq<nat>)
    requires InBounds(idx, |text|) && |before| == |text|
  {
    Overflows(Gather(text, idx), Gather(before, idx), table, |idx|)
  }

  lemma StillOverflows(rule: Rule, before: seq<BidiClass>, after: seq<BidiClass>, levels: seq<int>,
                       sqs: seq<RunSequence>, s: nat, text: seq<char>, table: BracketTable)
    requires Applied(rule, before, after, levels, sqs, s) && s < |sqs| && |text| == |before|
    ensures ChainOverflows(after, text, table, sqs[s].indices) == ChainOverflows(before, text, table, sqs[s].indices)
  {
  }

  /** Chain `n` has had its turn. */
  lemma ChainResolved(orig: seq<BidiClass>, before: seq<BidiClass>, a: seq<BidiClass>, b: seq<BidiClass>,
                      levels: seq<int>, sqs: seq<RunSequence>, n: nat, text: seq<char>, table: BracketTable)
    requires |orig| == |text| && n < |sqs| && NoOverflowBefore(before, text, table, sqs, n)
    requires Applied(BracketRule(orig, text, table), before, a, levels, sqs, n)
    requires SameOff(a, b, sqs[n].indices) && !ChainOverflows(a, text, table, sqs[n].indices)
    requires Gather(b, sqs[n].indices) ==
      BracketRule(orig, text, table)(Gather(a, sqs[n].indices), Gather(levels, sqs[n].indices), sqs[n])
    ensures Applied(BracketRule(orig, text, table), before, b, levels, sqs, n + 1)
    ensures NoOverflowBefore(before, text, table, sqs, n + 1)
  {
    var rule := BracketRule(orig, text, table);
    StillOverflows(rule, before, a, levels, sqs, n, text, table);
    AppliedNext(rule, before, a, b, levels, sqs, n);
  }

  // ---------------------------------------------------------------- what the rule keeps

  ghost predicate PairsVisible(lv: seq<int>, pairs: seq<Pair>) {
    && PairsFit(pairs, |lv|)
    && forall i {:trigger pairs[i]} :: 0 <= i < |pairs| ==>
         Visible(lv[pairs[i].openingPos]) && Visible(lv[pairs[i].closingPos])
  }

  /** Brackets in play have class ON, so they are visible. */
  ghost predicate StateVisible(s: BracketState, lv: seq<int>, k: nat) {
    && k <= |lv| && PairsVisible(lv, s.pairs)
    && forall i {:trigger s.open[i]} :: 0 <= i < |s.open| ==> s.open[i].position < k && Visible(lv[s.open[i].position])
  }

  lemma {:induction false} Bd16Visible(chars: seq<char>, g: seq<BidiClass>, lv: seq<int>, table: BracketTable, k: nat)
    requires Consistent(g, lv) && k <= |chars| == |g|
    ensures StateVisible(Bd16(chars, g, table, k), lv, k)
    decreases k
  {
    if 0 < k {
      Bd16Visible(chars, g, lv, table, k - 1);
      StepVisible(Bd16(chars, g, table, k - 1), Bd16(chars, g, table, k), g, lv,
                  BracketAt(chars, g, table, k - 1), chars[k - 1], k - 1);
    }
  }

  lemma StepVisible(s: BracketState, s': BracketState, g: seq<BidiClass>, lv: seq<int>, b: Option<Bracket>, c: char,
                    k: nat)
    requires Consistent(g, lv) && StateVisible(s, lv, k) && k < |lv| && (b.Some? ==> g[k].OtherNeutral?)
    requires s' == BracketStep(s, b, c, k)
    ensures StateVisible(s', lv, k + 1)
  {
  }

  lemma SortedVisible(lv: seq<int>, pairs: seq<Pair>)
    requires PairsVisible(lv, pairs)
    ensures PairsVisible(lv, SortPairs(pairs))
  {
    SortPairsFit(pairs, |lv|);
    var r := SortPairs(pairs);
    forall i {:trigger r[i]} | 0 <= i < |r| ensures Visible(lv[r[i].openingPos]) && Visible(lv[r[i].closingPos]) {
      assert r[i] in multiset(r);
      assert r[i] in multiset(pairs);
    }
  }

  lemma PairsOfVisible(chars: seq<char>, g: seq<BidiClass>, lv: seq<int>, table: BracketTable)
    requires Consistent(g, lv) && |chars| == |g|
    ensures PairsVisible(lv, PairsOf(chars, g, table))
  {
    Bd16Visible(chars, g, lv, table, |g|);
    SortedVisible(lv, Bd16(chars, g, table, |g|).pairs);
  }

  /** `r` differs from `g` only in visible characters, which it makes L or R. */
  ghost predicate OnlyDirections(g: seq<BidiClass>, lv: seq<int>, r: seq<BidiClass>) {
    && |g| == |lv| == |r|
    && forall k {:trigger r[k]} :: 0 <= k < |g| ==>
         r[k] == g[k] || (Visible(lv[k]) && (r[k].LeftToRight? || r[k].RightToLeft?))
  }

  lemma PairOnlyDirections(g: seq<BidiClass>, orig: seq<BidiClass>, lv: seq<int>, sos: BidiClass,
                           embedding: Direction, pair: Pair)
    requires Consistent(orig, lv) && pair.openingPos < pair.closingPos < |g| == |lv|
    requires Visible(lv[pair.openingPos]) && Visible(lv[pair.closingPos])
    ensures OnlyDirections(g, lv, ResolvePair(g, orig, lv, sos, embedding, pair))
  {
  }

  lemma {:induction false} PairsOnlyDirections(g: seq<BidiClass>, orig: seq<BidiClass>, lv: seq<int>, sos: BidiClass,
                                               embedding: Direction, pairs: seq<Pair>)
    requires Consistent(orig, lv) && |g| == |lv| && PairsVisible(lv, pairs)
    ensures OnlyDirections(g, lv, ResolvePairs(g, orig, lv, sos, embedding, pairs))
    decreases |pairs|
  {
    if pairs != [] {
      var n := |pairs| - 1;
      var mid := ResolvePairs(g, orig, lv, sos, embedding, pairs[..n]);
      PairsOnlyDirections(g, orig, lv, sos, embedding, pairs[..n]);
      PairOnlyDirections(mid, orig, lv, sos, embedding, pairs[n]);
    }
  }

  lemma OnlyDirectionsKeep(g: seq<BidiClass>, lv: seq<int>, r: seq<BidiClass>, n: nat)
    requires Consistent(g, lv) && OnlyDirections(g, lv, r) && Cleared(g, lv, n) && n < 10
    ensures Consistent(r, lv) && Cleared(r, lv, n) && RemovedKept(g, lv, r)
  {
  }

  lemma BracketsClearChain(before: seq<BidiClass>, after: seq<BidiClass>, orig: seq<BidiClass>, text: seq<char>,
                           table: BracketTable, levels: seq<int>, sqs: seq<RunSequence>, n: nat, s: nat)
    requires ChainsReady(before, levels, sqs) && Consistent(orig, levels) && |text| == |orig|
    requires Cleared(before, levels, 8) && s < |sqs|
    requires Applied(BracketRule(orig, text, table), before, after, levels, sqs, n)
    ensures ChainKept(before, after, levels, sqs[s].indices, 8)
  {
    var idx := sqs[s].indices;
    var g, lv, r := Gather(before, idx), Gather(levels, idx), Gather(after, idx);
    GatherConsistent(before, levels, idx);
    GatherConsistent(orig, levels, idx);
    GatherCleared(before, levels, idx, 8);
    if s < n {
      assert r == RuleOn(BracketRule(orig, text, table), before, levels, sqs, s);
      var pairs := PairsOf(Gather(text, idx), g, table);
      PairsOfVisible(Gather(text, idx), g, lv, table);
      PairsOnlyDirections(g, Gather(orig, idx), lv, sqs[s].sos, DirectionOf(sqs[s].level), pairs);
    }
    OnlyDirectionsKeep(g, lv, r, 8);
  }

  lemma BracketsClearAll(before: seq<BidiClass>, after: seq<BidiClass>, orig: seq<BidiClass>, text: seq<char>,
                         table: BracketTable, levels: seq<int>, sqs: seq<RunSequence>, n: nat)
    requires ChainsReady(before, levels, sqs) && Consistent(orig, levels) && |text| == |orig|
    requires Cleared(before, levels, 8)
    requires Applied(BracketRule(orig, text, table), before, after, levels, sqs, n)
    ensures ChainsReady(after, levels, sqs) && Cleared(after, levels, 8) && RemovedKept(before, levels, after)
  {
    forall s {:trigger sqs[s]} | 0 <= s < |sqs| ensures ChainKept(before, after, levels, sqs[s].indices, 8) {
      BracketsClearChain(before, after, orig, text, table, levels, sqs, n, s);
    }
    ChainsKept(before, after, levels, sqs, 8);
  }

  // ---------------------------------------------------------------- marks after a bracket

  /** The marks after position `a` and below `n` have been given class `c`. */
  ghost predicate Marked(g: seq<BidiClass>, orig: seq<BidiClass>, lv: seq<int>, a: nat, n: nat, c: BidiClass,
                         r: seq<BidiClass>)
  {
    && |g| == |orig| == |lv| == |r|
    && forall k {:trigger r[k]} :: 0 <= k < |g| ==>
         r[k] == if k < n && MarkOf(orig, lv, a, k) then c else g[k]
  }

  lemma MarkedPair(g: seq<BidiClass>, orig: seq<BidiClass>, lv: seq<int>, pair: Pair, d: Direction,
                   x: seq<BidiClass>, y: seq<BidiClass>, z: seq<BidiClass>)
    requires pair.openingPos < pair.closingPos < |g|
    requires x == g[pair.openingPos := d.AsBidiClass()][pair.closingPos := d.AsBidiClass()]
    requires Marked(x, orig, lv, pair.openingPos, pair.closingPos, d.AsBidiClass(), y)
    requires Marked(y, orig, lv, pair.closingPos, |g|, d.AsBidiClass(), z)
    ensures z == SetPair(g, orig, lv, pair, d)
  {
  }

  /** The marks go on over removed characters. */
  lemma MarkedNext(g: seq<BidiClass>, orig: seq<BidiClass>, lv: seq<int>, a: nat, p: nat, c: BidiClass,
                   r: seq<BidiClass>, r': seq<BidiClass>)
    requires Marked(g, orig, lv, a, p, c, r) && a < p < |g|
    requires forall j {:trigger orig[j]} :: a < j < p ==> orig[j].NonspacingMark? || !Visible(lv[j])
    requires r' == if orig[p].NonspacingMark? then r[p := c] else r
    ensures Marked(g, orig, lv, a, p + 1, c, r')
  {
  }

  lemma MarkedBeyond(g: seq<BidiClass>, orig: seq<BidiClass>, lv: seq<int>, a: nat, p: nat, n: nat, c: BidiClass,
                     r: seq<BidiClass>)
    requires Marked(g, orig, lv, a, p, c, r) && a < p <= n
    requires p < n ==> p < |g| && !orig[p].NonspacingMark? && Visible(lv[p])
    ensures Marked(g, orig, lv, a, n, c, r)
  {
  }
}
