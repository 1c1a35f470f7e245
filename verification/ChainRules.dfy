/** The rules W1 to W7, N1 and N2 as functions of one text chain, and what all of them together
    guarantee. */
module ChainRules {
  import opened BidiTypes
  import opened LevelRuns
  import opened Chains
  import opened WeakTypes
  import opened Neutrals

  datatype RuleName = W1 | W2 | W3 | W4 | W5 | W6 | W7 | N1 | N2

  ghost function RuleAt(name: RuleName, g: seq<BidiClass>, lv: seq<int>, sq: RunSequence, k: nat): BidiClass
    requires k < |g| == |lv|
  {
    match name
    case W1 => W1At(g, lv, sq.sos, k)
    case W2 => W2At(g, sq.sos, k)
    case W3 => W3At(g, k)
    case W4 => W4At(g, lv, k)
    case W5 => W5At(g, lv, k)
    case W6 => W6At(g, k)
    case W7 => W7At(g, sq.sos, k)
    case N1 => N1At(g, lv, sq.sos, sq.eos, k)
    case N2 => N2At(g, lv, k)
  }

  ghost function ApplyRule(name: RuleName, g: seq<BidiClass>, lv: seq<int>, sq: RunSequence): (r: seq<BidiClass>)
    requires |g| == |lv|
    ensures |r| == |g|
  {
    seq(|g|, k requires 0 <= k < |g| => RuleAt(name, g, lv, sq, k))
  }

  ghost function RuleOf(name: RuleName): Rule {
    (g: seq<BidiClass>, lv: seq<int>, sq: RunSequence) => if |g| == |lv| then ApplyRule(name, g, lv, sq) else g
  }

  /** `r` is the result of the rule, known where it is asked for. */
  ghost predicate IsResult(name: RuleName, g: seq<BidiClass>, lv: seq<int>, sq: RunSequence, r: seq<BidiClass>) {
    && |r| == |g| == |lv|
    && forall k {:trigger RuleAt(name, g, lv, sq, k)} :: 0 <= k < |g| ==> r[k] == RuleAt(name, g, lv, sq, k)
  }

  lemma ApplyRuleIsResult(name: RuleName, g: seq<BidiClass>, lv: seq<int>, sq: RunSequence)
    requires |g| == |lv|
    ensures IsResult(name, g, lv, sq, ApplyRule(name, g, lv, sq))
  {
  }

  // ---------------------------------------------------------------- steps of a loop over a chain

  /** The chain of a paragraph array, while a rule with result `r` goes up. */
  ghost predicate GoingUp(before: seq<BidiClass>, after: seq<BidiClass>, idx: seq<nat>,
                          g: seq<BidiClass>, r: seq<BidiClass>, k: int)
  {
    && InBounds(idx, |before|) && SameOff(before, after, idx)
    && UpTo(g, r, Gather(after, idx), k)
  }

  lemma UpWrite(before: seq<BidiClass>, a: seq<BidiClass>, idx: seq<nat>, g: seq<BidiClass>, r: seq<BidiClass>,
                k: nat, v: BidiClass)
    requires Ascending(idx) && GoingUp(before, a, idx, g, r, k) && k < |idx| && r[k] == v
    ensures GoingUp(before, a[idx[k] := v], idx, g, r, k + 1)
  {
    GatherUpdate(a, idx, k, v);
  }

  lemma UpKeep(before: seq<BidiClass>, a: seq<BidiClass>, idx: seq<nat>, g: seq<BidiClass>, r: seq<BidiClass>, k: nat)
    requires GoingUp(before, a, idx, g, r, k) && k < |idx| && r[k] == g[k]
    ensures GoingUp(before, a, idx, g, r, k + 1)
  {
  }

  ghost predicate GoingDown(before: seq<BidiClass>, after: seq<BidiClass>, idx: seq<nat>,
                            g: seq<BidiClass>, r: seq<BidiClass>, k: int)
  {
    && InBounds(idx, |before|) && SameOff(before, after, idx)
    && DownTo(g, r, Gather(after, idx), k)
  }

  lemma DownWrite(before: seq<BidiClass>, a: seq<BidiClass>, idx: seq<nat>, g: seq<BidiClass>, r: seq<BidiClass>,
                  k: nat, v: BidiClass)
    requires Ascending(idx) && GoingDown(before, a, idx, g, r, k + 1) && k < |idx| && r[k] == v
    ensures GoingDown(before, a[idx[k] := v], idx, g, r, k)
  {
    GatherUpdate(a, idx, k, v);
  }

  lemma DownKeep(before: seq<BidiClass>, a: seq<BidiClass>, idx: seq<nat>, g: seq<BidiClass>, r: seq<BidiClass>, k: nat)
    requires GoingDown(before, a, idx, g, r, k + 1) && k < |idx| && r[k] == g[k]
    ensures GoingDown(before, a, idx, g, r, k)
  {
  }

  /** The rule has been applied to this chain. */
  ghost predicate ChainDone(name: RuleName, before: seq<BidiClass>, after: seq<BidiClass>, levels: seq<int>,
                            sq: RunSequence)
  {
    && |before| == |levels| && InBounds(sq.indices, |before|) && SameOff(before, after, sq.indices)
    && Gather(after, sq.indices) ==
         ApplyRule(name, Gather(before, sq.indices), Gather(levels, sq.indices), sq)
  }

  lemma UpDone(name: RuleName, before: seq<BidiClass>, after: seq<BidiClass>, levels: seq<int>, sq: RunSequence,
               g: seq<BidiClass>, r: seq<BidiClass>)
    requires |before| == |levels| && GoingUp(before, after, sq.indices, g, r, |sq.indices|)
    requires g == Gather(before, sq.indices) && r == ApplyRule(name, g, Gather(levels, sq.indices), sq)
    ensures ChainDone(name, before, after, levels, sq)
  {
  }

  lemma DownDone(name: RuleName, before: seq<BidiClass>, after: seq<BidiClass>, levels: seq<int>, sq: RunSequence,
                 g: seq<BidiClass>, r: seq<BidiClass>)
    requires |before| == |levels| && GoingDown(before, after, sq.indices, g, r, 0)
    requires g == Gather(before, sq.indices) && r == ApplyRule(name, g, Gather(levels, sq.indices), sq)
    ensures ChainDone(name, before, after, levels, sq)
  {
  }

  lemma UpReads(before: seq<BidiClass>, after: seq<BidiClass>, idx: seq<nat>, g: seq<BidiClass>, r: seq<BidiClass>,
                k: nat, j: nat)
    requires GoingUp(before, after, idx, g, r, k) && j < |idx|
    ensures after[idx[j]] == if j < k then r[j] else g[j]
  {
    assert Gather(after, idx)[j] == after[idx[j]];
  }

  lemma DownReads(before: seq<BidiClass>, after: seq<BidiClass>, idx: seq<nat>, g: seq<BidiClass>,
                  r: seq<BidiClass>, k: nat, j: nat)
    requires GoingDown(before, after, idx, g, r, k) && j < |idx|
    ensures after[idx[j]] == if j < k then g[j] else r[j]
  {
    assert Gather(after, idx)[j] == after[idx[j]];
  }

  /** What a rule may rely on for the chain of `sq`. */
  ghost predicate ChainReady(types: seq<BidiClass>, levels: seq<int>, sq: RunSequence) {
    && |types| == |levels|
    && InBounds(sq.indices, |types|) && Ascending(sq.indices)
    && Consistent(Gather(types, sq.indices), Gather(levels, sq.indices))
    && SidesKnown(sq)
  }

  // ---------------------------------------------------------------- values read in place

  lemma W2Value(g: seq<BidiClass>, lv: seq<int>, sq: RunSequence, r: seq<BidiClass>, cur: seq<BidiClass>, k: nat)
    requires IsResult(W2, g, lv, sq, r) && UpTo(g, r, cur, k) && k < |g|
    ensures r[k] == if cur[k].EuropeanNumber? && LastStrong(cur, true, sq.sos, k).ArabicLetter? then ArabicNumber
                    else cur[k]
  {
    forall j {:trigger cur[j]} | 0 <= j < k ensures cur[j] == g[j] || (g[j].EuropeanNumber? && cur[j].ArabicNumber?) {
      assert r[j] == RuleAt(W2, g, lv, sq, j);
    }
    StrongUndisturbed(g, cur, true, sq.sos, k);
    assert r[k] == RuleAt(W2, g, lv, sq, k);
  }

  lemma W4Value(g: seq<BidiClass>, lv: seq<int>, sq: RunSequence, r: seq<BidiClass>, cur: seq<BidiClass>, k: nat)
    requires IsResult(W4, g, lv, sq, r) && UpTo(g, r, cur, k) && k < |g| && Consistent(g, lv)
    ensures cur[k] == g[k] && r[k] == W4At(cur, lv, k)
  {
    forall j {:trigger cur[j]} | 0 <= j < |g| ensures cur[j] == if j < k then W4At(g, lv, j) else g[j] {
      assert j < k ==> r[j] == RuleAt(W4, g, lv, sq, j);
    }
    if g[k].EuropeanSeparator? || g[k].CommonSeparator? {
      W4InPlace(g, lv, cur, k, EuropeanNumber);
      W4InPlace(g, lv, cur, k, ArabicNumber);
    }
    assert r[k] == RuleAt(W4, g, lv, sq, k);
  }

  lemma W7Value(g: seq<BidiClass>, lv: seq<int>, sq: RunSequence, r: seq<BidiClass>, cur: seq<BidiClass>, k: nat)
    requires IsResult(W7, g, lv, sq, r) && DownTo(g, r, cur, k + 1) && k < |g|
    ensures r[k] == if cur[k].EuropeanNumber? && LastStrong(cur, false, sq.sos, k).LeftToRight? then LeftToRight
                    else cur[k]
  {
    StrongUndisturbed(g, cur, false, sq.sos, k);
    assert r[k] == RuleAt(W7, g, lv, sq, k);
  }

  lemma W5Ends(g: seq<BidiClass>, lv: seq<int>, sq: RunSequence, cur: seq<BidiClass>)
    requires W5Done(g, lv, cur, |g|)
    ensures cur == ApplyRule(W5, g, lv, sq)
  {
  }

  lemma ResultIsN1(g: seq<BidiClass>, lv: seq<int>, sq: RunSequence, r: seq<BidiClass>)
    requires IsResult(N1, g, lv, sq, r)
    ensures IsN1(g, lv, sq.sos, sq.eos, r)
  {
    forall k {:trigger N1At(g, lv, sq.sos, sq.eos, k)} | 0 <= k < |g| ensures r[k] == N1At(g, lv, sq.sos, sq.eos, k) {
      assert r[k] == RuleAt(N1, g, lv, sq, k);
    }
  }

  /** N1 and N2 one after the other give every neutral of a block between `a` and `b` (removed
      characters skipped) the direction its two strong neighbours share, or else the embedding
      direction. */
  lemma NeutralBlock(g: seq<BidiClass>, lv: seq<int>, sq: RunSequence, level: int, a: nat, b: nat, k: nat)
    requires Consistent(g, lv) && a <= k < b <= |g|
    requires forall m {:trigger Stops(g, lv, m)} :: a <= m < b ==> !Stops(g, lv, m)
    requires a == 0 || Stops(g, lv, a - 1)
    requires b == |g| || Stops(g, lv, b)
    requires Visible(lv[k]) && lv[k] == level
    ensures var before, after := StrongDirection(if a == 0 then sq.sos else g[a - 1]),
                                 StrongDirection(if b == |g| then sq.eos else g[b]);
            ApplyRule(N2, ApplyRule(N1, g, lv, sq), lv, sq)[k] ==
              if before.Some? && before == after then before.value.AsBidiClass() else LevelClass(level)
  {
    var r := ApplyRule(N1, g, lv, sq);
    BlockResolves(g, lv, sq.sos, sq.eos, level, a, b, k);
    assert r[k] == RuleAt(N1, g, lv, sq, k);
    assert ApplyRule(N2, r, lv, sq)[k] == RuleAt(N2, r, lv, sq, k);
  }

  // ---------------------------------------------------------------- what every rule keeps

  ghost predicate SidesKnown(sq: RunSequence) {
    (sq.sos.LeftToRight? || sq.sos.RightToLeft?) && (sq.eos.LeftToRight? || sq.eos.RightToLeft?)
  }

  /** The rules in the order they run; N0 runs between W7 and N1. */
  function Rank(name: RuleName): nat {
    match name
    case W1 => 1 case W2 => 2 case W3 => 3 case W4 => 4 case W5 => 5 case W6 => 6 case W7 => 7
    case N1 => 9 case N2 => 10
  }

  /** Classes that no visible character has once the first `n` rules have run. */
  predicate Gone(n: nat, c: BidiClass) {
    || (n >= 1 && c.NonspacingMark?)
    || (n >= 3 && c.ArabicLetter?)
    || (n >= 6 && (c.EuropeanSeparator? || c.CommonSeparator? || c.EuropeanTerminator?))
    || (n >= 10 && c.IsNeutral())
  }

  ghost predicate Cleared(g: seq<BidiClass>, lv: seq<int>, n: nat)
    requires |g| == |lv|
  {
    forall k {:trigger g[k]} :: 0 <= k < |g| && Visible(lv[k]) ==> !Gone(n, g[k])
  }

  /** Removed characters keep their classes. */
  ghost predicate RemovedKept(g: seq<BidiClass>, lv: seq<int>, r: seq<BidiClass>) {
    && |g| == |lv| == |r|
    && forall k {:trigger r[k]} :: 0 <= k < |g| && !Visible(lv[k]) ==> r[k] == g[k]
  }

  lemma {:induction false} MarkBaseVisible(g: seq<BidiClass>, lv: seq<int>, sos: BidiClass, k: nat)
    requires Consistent(g, lv) && k <= |g| && (sos.LeftToRight? || sos.RightToLeft?)
    ensures var c := MarkBase(g, lv, sos, k); !c.IsRemovedByX9() && !c.NonspacingMark?
    decreases k
  {
    if 0 < k {
      MarkBaseVisible(g, lv, sos, k - 1);
    }
  }

  lemma RuleClearsAt(name: RuleName, g: seq<BidiClass>, lv: seq<int>, sq: RunSequence, k: nat)
    requires Consistent(g, lv) && SidesKnown(sq) && k < |g|
    requires Visible(lv[k]) ==> !Gone(Rank(name) - 1, g[k])
    ensures var c := RuleAt(name, g, lv, sq, k);
            if Visible(lv[k]) then !c.IsRemovedByX9() && !Gone(Rank(name), c) else c == g[k]
  {
    MarkBaseVisible(g, lv, sq.sos, k);
  }

  /** Every rule makes its class disappear, brings none back, and leaves removed characters alone. */
  lemma RuleClears(name: RuleName, g: seq<BidiClass>, lv: seq<int>, sq: RunSequence, r: seq<BidiClass>)
    requires IsResult(name, g, lv, sq, r) && Consistent(g, lv) && SidesKnown(sq)
    requires Cleared(g, lv, Rank(name) - 1)
    ensures Consistent(r, lv) && Cleared(r, lv, Rank(name)) && RemovedKept(g, lv, r)
  {
    forall k {:trigger r[k]} {:trigger lv[k]} | 0 <= k < |g|
      ensures if Visible(lv[k]) then !r[k].IsRemovedByX9() && !Gone(Rank(name), r[k]) else r[k] == g[k]
    {
      RuleClearsAt(name, g, lv, sq, k);
      assert r[k] == RuleAt(name, g, lv, sq, k);
    }
  }

  /** A chain between two consistent ones. */
  lemma MixedConsistent(g: seq<BidiClass>, lv: seq<int>, r: seq<BidiClass>, cur: seq<BidiClass>, k: int)
    requires Consistent(g, lv) && Consistent(r, lv) && (UpTo(g, r, cur, k) || DownTo(g, r, cur, k))
    ensures Consistent(cur, lv)
  {
  }

  lemma ResultConsistent(name: RuleName, g: seq<BidiClass>, lv: seq<int>, sq: RunSequence, r: seq<BidiClass>)
    requires IsResult(name, g, lv, sq, r) && Consistent(g, lv) && SidesKnown(sq)
    ensures Consistent(r, lv)
  {
    forall k {:trigger r[k]} {:trigger lv[k]} | 0 <= k < |g| ensures Visible(lv[k]) <==> !r[k].IsRemovedByX9() {
      MarkBaseVisible(g, lv, sq.sos, k);
      assert r[k] == RuleAt(name, g, lv, sq, k);
    }
  }

  // ---------------------------------------------------------------- all chains of a paragraph

  /** What a rule may rely on for the whole paragraph. */
  ghost predicate ChainsReady(types: seq<BidiClass>, levels: seq<int>, sqs: seq<RunSequence>) {
    && Consistent(types, levels) && ChainsOf(sqs, |levels|)
    && (forall s {:trigger sqs[s]} :: 0 <= s < |sqs| ==> SidesKnown(sqs[s]))
    && (forall k {:trigger OutsideChains(sqs, k)} :: 0 <= k < |levels| && Visible(levels[k]) ==> !OutsideChains(sqs, k))
  }

  lemma GatherConsistent(types: seq<BidiClass>, levels: seq<int>, idx: seq<nat>)
    requires Consistent(types, levels) && InBounds(idx, |levels|)
    ensures Consistent(Gather(types, idx), Gather(levels, idx))
  {
  }

  /** A chain that has not had its turn is as it was. */
  lemma StillReady(rule: Rule, before: seq<BidiClass>, after: seq<BidiClass>, levels: seq<int>,
                   sqs: seq<RunSequence>, s: nat)
    requires ChainsReady(before, levels, sqs) && Applied(rule, before, after, levels, sqs, s) && s < |sqs|
    ensures ChainReady(after, levels, sqs[s])
  {
  }

  /** What holds of every chain holds of the paragraph. */
  ghost predicate ChainKept(before: seq<BidiClass>, after: seq<BidiClass>, levels: seq<int>, idx: seq<nat>, n: nat) {
    && |before| == |after| == |levels| && InBounds(idx, |levels|)
    && var g, lv, r := Gather(before, idx), Gather(levels, idx), Gather(after, idx);
    && Consistent(r, lv) && Cleared(r, lv, n) && RemovedKept(g, lv, r)
  }

  lemma ChainsKept(before: seq<BidiClass>, after: seq<BidiClass>, levels: seq<int>, sqs: seq<RunSequence>, n: nat)
    requires ChainsReady(before, levels, sqs) && |after| == |before|
    requires forall i {:trigger OutsideChains(sqs, i)} :: 0 <= i < |before| && OutsideChains(sqs, i) ==>
      after[i] == before[i]
    requires forall s {:trigger sqs[s]} :: 0 <= s < |sqs| ==> ChainKept(before, after, levels, sqs[s].indices, n)
    ensures ChainsReady(after, levels, sqs) && Cleared(after, levels, n) && RemovedKept(before, levels, after)
  {
    forall k {:trigger after[k]} {:trigger levels[k]} | 0 <= k < |after|
      ensures if Visible(levels[k]) then !after[k].IsRemovedByX9() && !Gone(n, after[k]) else after[k] == before[k]
    {
      if !OutsideChains(sqs, k) {
        var s :| 0 <= s < |sqs| && k in sqs[s].indices;
        KeptAt(before, after, levels, sqs[s].indices, n, k);
      }
    }
  }

  lemma KeptAt(before: seq<BidiClass>, after: seq<BidiClass>, levels: seq<int>, idx: seq<nat>, n: nat, k: nat)
    requires ChainKept(before, after, levels, idx, n) && k in idx
    ensures k < |levels|
    ensures if Visible(levels[k]) then !after[k].IsRemovedByX9() && !Gone(n, after[k]) else after[k] == before[k]
  {
    var j :| 0 <= j < |idx| && idx[j] == k;
    assert Gather(after, idx)[j] == after[k] && Gather(before, idx)[j] == before[k];
    assert Gather(levels, idx)[j] == levels[k];
  }

  lemma GatherCleared(types: seq<BidiClass>, levels: seq<int>, idx: seq<nat>, n: nat)
    requires |types| == |levels| && Cleared(types, levels, n) && InBounds(idx, |levels|)
    ensures Cleared(Gather(types, idx), Gather(levels, idx), n)
  {
  }

  lemma RuleClearsAll(name: RuleName, before: seq<BidiClass>, after: seq<BidiClass>, levels: seq<int>,
                      sqs: seq<RunSequence>)
    requires ChainsReady(before, levels, sqs) && Cleared(before, levels, Rank(name) - 1)
    requires Applied(RuleOf(name), before, after, levels, sqs, |sqs|)
    ensures ChainsReady(after, levels, sqs) && Cleared(after, levels, Rank(name)) && RemovedKept(before, levels, after)
  {
    forall s {:trigger sqs[s]} | 0 <= s < |sqs| ensures ChainKept(before, after, levels, sqs[s].indices, Rank(name)) {
      RuleClearsChain(name, before, after, levels, sqs, s);
    }
    ChainsKept(before, after, levels, sqs, Rank(name));
  }

  lemma RuleClearsChain(name: RuleName, before: seq<BidiClass>, after: seq<BidiClass>, levels: seq<int>,
                        sqs: seq<RunSequence>, s: nat)
    requires ChainsReady(before, levels, sqs) && Cleared(before, levels, Rank(name) - 1) && s < |sqs|
    requires Applied(RuleOf(name), before, after, levels, sqs, |sqs|)
    ensures ChainKept(before, after, levels, sqs[s].indices, Rank(name))
  {
    var idx := sqs[s].indices;
    var g, lv := Gather(before, idx), Gather(levels, idx);
    GatherConsistent(before, levels, idx);
    GatherCleared(before, levels, idx, Rank(name) - 1);
    ApplyRuleIsResult(name, g, lv, sqs[s]);
    assert Gather(after, idx) == RuleOn(RuleOf(name), before, levels, sqs, s);
    RuleClears(name, g, lv, sqs[s], Gather(after, idx));
  }
}
