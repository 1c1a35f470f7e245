/** Text chains: a rule reads and writes the paragraph through the index list of one isolating run
    sequence at a time. */
module Chains {
  import opened BidiTypes
  import opened LevelRuns

  ghost predicate InBounds(idx: seq<nat>, n: nat) {
    forall k {:trigger idx[k]} :: 0 <= k < |idx| ==> idx[k] < n
  }

  ghost predicate Ascending(idx: seq<nat>) {
    forall k, l {:trigger idx[k], idx[l]} :: 0 <= k < l < |idx| ==> idx[k] < idx[l]
  }

  /** What a chain sees of a paragraph array. */
  function Gather<T>(a: seq<T>, idx: seq<nat>): (g: seq<T>)
    requires InBounds(idx, |a|)
    ensures |g| == |idx|
    ensures forall k {:trigger g[k]} :: 0 <= k < |idx| ==> g[k] == a[idx[k]]
  {
    seq(|idx|, k requires 0 <= k < |idx| => a[idx[k]])
  }

  lemma GatherUpdate<T>(a: seq<T>, idx: seq<nat>, k: nat, v: T)
    requires InBounds(idx, |a|) && Ascending(idx) && k < |idx|
    ensures Gather(a[idx[k] := v], idx) == Gather(a, idx)[k := v]
  {
  }

  /** `a` and `b` differ at most where the chain points. */
  ghost predicate SameOff<T>(a: seq<T>, b: seq<T>, idx: seq<nat>) {
    && |a| == |b|
    && forall i {:trigger a[i]} {:trigger b[i]} :: 0 <= i < |a| && i !in idx ==> a[i] == b[i]
  }

  // ---------------------------------------------------------------- a family of disjoint chains

  ghost predicate ChainsOf(sqs: seq<RunSequence>, n: nat) {
    && (forall s {:trigger sqs[s]} :: 0 <= s < |sqs| ==>
          InBounds(sqs[s].indices, n) && Ascending(sqs[s].indices))
    && (forall s, t {:trigger sqs[s], sqs[t]} :: 0 <= s < t < |sqs| ==>
          DisjointChains(sqs[s].indices, sqs[t].indices))
  }

  ghost predicate DisjointChains(x: seq<nat>, y: seq<nat>) {
    forall k, l {:trigger x[k], y[l]} :: 0 <= k < |x| && 0 <= l < |y| ==> x[k] != y[l]
  }

  /** The classes of a chain before and after a rule, its levels and its sequence. */
  type Rule = (seq<BidiClass>, seq<int>, RunSequence) -> seq<BidiClass>

  /** What the rule makes of chain `s`. */
  ghost function RuleOn(rule: Rule, before: seq<BidiClass>, levels: seq<int>, sqs: seq<RunSequence>, s: nat)
    : seq<BidiClass>
    requires |before| == |levels| && s < |sqs| && InBounds(sqs[s].indices, |before|)
  {
    rule(Gather(before, sqs[s].indices), Gather(levels, sqs[s].indices), sqs[s])
  }

  /** The rule has been applied to the first `n` chains, and nothing else has changed. */
  ghost predicate Applied(rule: Rule, before: seq<BidiClass>, after: seq<BidiClass>, levels: seq<int>,
                          sqs: seq<RunSequence>, n: nat)
  {
    && |after| == |before| == |levels| && n <= |sqs| && ChainsOf(sqs, |before|)
    && (forall s {:trigger RuleOn(rule, before, levels, sqs, s)} :: 0 <= s < n ==>
          Gather(after, sqs[s].indices) == RuleOn(rule, before, levels, sqs, s))
    && (forall s {:trigger sqs[s]} :: n <= s < |sqs| ==>
          Gather(after, sqs[s].indices) == Gather(before, sqs[s].indices))
    && (forall i {:trigger OutsideChains(sqs, i)} :: 0 <= i < |before| && OutsideChains(sqs, i) ==>
          after[i] == before[i])
  }

  ghost predicate OutsideChains(sqs: seq<RunSequence>, i: int) {
    forall s {:trigger sqs[s]} :: 0 <= s < |sqs| ==> i !in sqs[s].indices
  }

  lemma AppliedNext(rule: Rule, before: seq<BidiClass>, a: seq<BidiClass>, b: seq<BidiClass>,
                    levels: seq<int>, sqs: seq<RunSequence>, n: nat)
    requires Applied(rule, before, a, levels, sqs, n) && n < |sqs|
    requires SameOff(a, b, sqs[n].indices)
    requires Gather(b, sqs[n].indices) == RuleOn(rule, before, levels, sqs, n)
    ensures Applied(rule, before, b, levels, sqs, n + 1)
  {
  }

  lemma AppliedNone(rule: Rule, before: seq<BidiClass>, levels: seq<int>, sqs: seq<RunSequence>)
    requires |before| == |levels| && ChainsOf(sqs, |before|)
    ensures Applied(rule, before, before, levels, sqs, 0)
  {
  }

  /** The chains and what is off them make up the paragraph. */
  lemma SameByChains<T>(a: seq<T>, b: seq<T>, sqs: seq<RunSequence>)
    requires |a| == |b| && ChainsOf(sqs, |a|)
    requires forall s {:trigger sqs[s]} :: 0 <= s < |sqs| ==> Gather(a, sqs[s].indices) == Gather(b, sqs[s].indices)
    requires forall i {:trigger OutsideChains(sqs, i)} :: 0 <= i < |a| && OutsideChains(sqs, i) ==> a[i] == b[i]
    ensures a == b
  {
    forall i {:trigger a[i]} {:trigger b[i]} | 0 <= i < |a| ensures a[i] == b[i] {
      if !OutsideChains(sqs, i) {
        var s :| 0 <= s < |sqs| && i in sqs[s].indices;
        var idx := sqs[s].indices;
        var j :| 0 <= j < |idx| && idx[j] == i;
        assert Gather(a, idx)[j] == a[i] && Gather(b, idx)[j] == b[i];
      }
    }
  }
}
