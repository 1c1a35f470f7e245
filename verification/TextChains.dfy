/** The index lists of the isolating run sequences partition the paragraph. */
module TextChains {
  import opened BidiTypes
  import opened LevelRuns
  import opened Chains

  function Range(a: nat, b: nat): (r: seq<nat>)
    requires a <= b
    ensures |r| == b - a
    ensures forall k {:trigger r[k]} :: 0 <= k < |r| ==> r[k] == a + k
  {
    seq(b - a, k requires 0 <= k < b - a => a + k)
  }

  ghost predicate RunsExist(runs: seq<LevelRun>, idxs: seq<nat>) {
    forall p {:trigger idxs[p]} :: 0 <= p < |idxs| ==> idxs[p] < |runs| && runs[idxs[p]].start <= runs[idxs[p]].end
  }

  /** The positions of the listed runs, run by run. */
  function ChainIndices(runs: seq<LevelRun>, idxs: seq<nat>): seq<nat>
    requires RunsExist(runs, idxs)
  {
    if idxs == [] then [] else
      var run := runs[idxs[|idxs| - 1]];
      ChainIndices(runs, idxs[..|idxs| - 1]) + Range(run.start, run.end)
  }

  lemma ChainNext(runs: seq<LevelRun>, idxs: seq<nat>, p: nat)
    requires RunsExist(runs, idxs) && p < |idxs|
    ensures RunsExist(runs, idxs[..p]) && RunsExist(runs, idxs[..p + 1])
    ensures ChainIndices(runs, idxs[..p + 1]) ==
      ChainIndices(runs, idxs[..p]) + Range(runs[idxs[p]].start, runs[idxs[p]].end)
  {
    assert idxs[..p + 1][..p] == idxs[..p];
  }

  ghost predicate InRunOf(runs: seq<LevelRun>, idxs: seq<nat>, k: int)
    requires RunsExist(runs, idxs)
  {
    exists p {:trigger idxs[p]} :: 0 <= p < |idxs| && runs[idxs[p]].start <= k < runs[idxs[p]].end
  }

  lemma InRange(a: nat, b: nat, k: int)
    requires a <= b
    ensures k in Range(a, b) <==> a <= k < b
  {
    var r := Range(a, b);
    if a <= k < b {
      assert r[k - a] == k;
    }
  }

  lemma InRunOfAppend(runs: seq<LevelRun>, idxs: seq<nat>, k: int)
    requires RunsExist(runs, idxs) && idxs != []
    ensures var n := |idxs| - 1;
            RunsExist(runs, idxs[..n]) &&
            (InRunOf(runs, idxs, k) <==>
             InRunOf(runs, idxs[..n], k) || runs[idxs[n]].start <= k < runs[idxs[n]].end)
  {
  }

  lemma {:induction false} ChainMembers(runs: seq<LevelRun>, idxs: seq<nat>, k: int)
    requires RunsExist(runs, idxs)
    ensures k in ChainIndices(runs, idxs) <==> InRunOf(runs, idxs, k)
    decreases |idxs|
  {
    if idxs != [] {
      var n := |idxs| - 1;
      InRunOfAppend(runs, idxs, k);
      ChainMembers(runs, idxs[..n], k);
      InRange(runs[idxs[n]].start, runs[idxs[n]].end, k);
    }
  }

  ghost predicate AllBelow(x: seq<nat>, m: nat) {
    forall k {:trigger x[k]} :: 0 <= k < |x| ==> x[k] < m
  }

  lemma AppendRange(x: seq<nat>, a: nat, b: nat)
    requires Ascending(x) && AllBelow(x, a) && a <= b
    ensures Ascending(x + Range(a, b)) && AllBelow(x + Range(a, b), b)
  {
  }

  lemma EarlierRun(types: seq<BidiClass>, levels: seq<int>, runs: seq<LevelRun>, upto: nat, idxs: seq<nat>, n: nat)
    requires Tiles(types, levels, runs, upto) && 0 < n < |idxs| && idxs[n - 1] < idxs[n] < |runs|
    ensures idxs[..n][n - 1] == idxs[n - 1] && runs[idxs[n - 1]].end <= runs[idxs[n]].start
  {
    RunBounds(types, levels, runs, upto, idxs[n - 1], idxs[n]);
  }

  /** The chain of ascending runs is ascending and ends with the last of them. */
  lemma {:induction false} ChainAscending(types: seq<BidiClass>, levels: seq<int>, runs: seq<LevelRun>, upto: nat,
                                          idxs: seq<nat>, m: nat)
    requires Tiles(types, levels, runs, upto) && RunsExist(runs, idxs)
    requires forall p, p' {:trigger idxs[p], idxs[p']} :: 0 <= p < p' < |idxs| ==> idxs[p] < idxs[p']
    requires idxs != [] ==> runs[idxs[|idxs| - 1]].end <= m
    ensures Ascending(ChainIndices(runs, idxs)) && AllBelow(ChainIndices(runs, idxs), m)
    decreases |idxs|
  {
    if idxs != [] {
      var n := |idxs| - 1;
      var run := runs[idxs[n]];
      var pre := idxs[..n];
      if 0 < n {
        EarlierRun(types, levels, runs, upto, idxs, n);
      }
      ChainAscending(types, levels, runs, upto, pre, run.start);
      AppendRange(ChainIndices(runs, pre), run.start, run.end);
    }
  }

  // ---------------------------------------------------------------- the partition

  /** Every sequence lists the positions of its runs, and knows its directions. */
  ghost predicate Built(types: seq<BidiClass>, base: int, runs: seq<LevelRun>, sqs: seq<RunSequence>) {
    forall s {:trigger sqs[s]} :: 0 <= s < |sqs| ==>
      && RunsExist(runs, sqs[s].runs) && sqs[s].runs != []
      && sqs[s].indices == ChainIndices(runs, sqs[s].runs)
      && HasSides(types, base, runs, sqs[s])
  }

  /** sos and eos of X10: a sequence that ends with an unmatched initiator looks to the base level. */
  ghost predicate HasSides(types: seq<BidiClass>, base: int, runs: seq<LevelRun>, sq: RunSequence) {
    && sq.runs != [] && sq.runs[0] < |runs| && LastRun(sq) < |runs|
    && var last := runs[LastRun(sq)];
    && last.start < last.end <= |types|
    && sq.sos == runs[sq.runs[0]].sor
    && sq.eos == if EndsWithInit(types, last) then LevelClass(Max(base, sq.level)) else last.eor
  }

  lemma SequenceAscending(types: seq<BidiClass>, levels: seq<int>, runs: seq<LevelRun>, sqs: seq<RunSequence>, s: nat)
    requires SequencesOf(types, levels, runs, sqs) && s < |sqs|
    ensures forall p, p' {:trigger sqs[s].runs[p], sqs[s].runs[p']} ::
      0 <= p < p' < |sqs[s].runs| ==> sqs[s].runs[p] < sqs[s].runs[p']
  {
    forall p, p' {:trigger sqs[s].runs[p], sqs[s].runs[p']} | 0 <= p < p' < |sqs[s].runs|
      ensures sqs[s].runs[p] < sqs[s].runs[p']
    {
      LinkedAscending(types, levels, runs, sqs[s], s, p, p');
    }
  }

  /** A position in a chain lies in one run of its sequence, and if visible has its level. */
  lemma ChainRun(types: seq<BidiClass>, levels: seq<int>, base: int, runs: seq<LevelRun>, upto: nat,
                 sqs: seq<RunSequence>, s: nat, k: nat) returns (r: nat)
    requires LevelRunsOf(types, levels, runs, upto) && SequencesOf(types, levels, runs, sqs)
    requires Built(types, base, runs, sqs) && s < |sqs| && k in sqs[s].indices
    ensures r < |runs| && runs[r].start <= k < runs[r].end <= |levels|
    ensures runs[r].seqId == s + 1 && runs[r].level == sqs[s].level
    ensures Visible(levels[k]) ==> levels[k] == sqs[s].level
  {
    ChainMembers(runs, sqs[s].runs, k);
    var p :| 0 <= p < |sqs[s].runs| && runs[sqs[s].runs[p]].start <= k < runs[sqs[s].runs[p]].end;
    r := sqs[s].runs[p];
  }

  lemma DifferentChains(types: seq<BidiClass>, levels: seq<int>, base: int, runs: seq<LevelRun>, upto: nat,
                        sqs: seq<RunSequence>, s: nat, t: nat, k: nat)
    requires LevelRunsOf(types, levels, runs, upto) && SequencesOf(types, levels, runs, sqs)
    requires Built(types, base, runs, sqs) && s < |sqs| && t < |sqs|
    requires k in sqs[s].indices && k in sqs[t].indices
    ensures s == t
  {
    var q := ChainRun(types, levels, base, runs, upto, sqs, s, k);
    var r := ChainRun(types, levels, base, runs, upto, sqs, t, k);
    SameRun(types, levels, runs, upto, q, r, k);
  }

  lemma SameRun(types: seq<BidiClass>, levels: seq<int>, runs: seq<LevelRun>, upto: nat, q: nat, r: nat, k: nat)
    requires Tiles(types, levels, runs, upto) && q < |runs| && r < |runs|
    requires runs[q].start <= k < runs[q].end && runs[r].start <= k < runs[r].end
    ensures q == r
  {
    RunBounds(types, levels, runs, upto, Min(q, r), Max(q, r));
  }

  /** The chains are ascending, in bounds and pairwise disjoint. */
  lemma ChainsAreDisjoint(types: seq<BidiClass>, levels: seq<int>, base: int, runs: seq<LevelRun>, upto: nat,
                          sqs: seq<RunSequence>)
    requires LevelRunsOf(types, levels, runs, upto) && SequencesOf(types, levels, runs, sqs)
    requires Built(types, base, runs, sqs)
    ensures ChainsOf(sqs, |levels|)
  {
    forall s {:trigger sqs[s]} | 0 <= s < |sqs|
      ensures InBounds(sqs[s].indices, |levels|) && Ascending(sqs[s].indices)
    {
      SequenceAscending(types, levels, runs, sqs, s);
      RunBounds(types, levels, runs, upto, LastRun(sqs[s]), LastRun(sqs[s]));
      ChainAscending(types, levels, runs, upto, sqs[s].runs, |levels|);
    }
    forall s, t {:trigger sqs[s], sqs[t]} | 0 <= s < t < |sqs|
      ensures DisjointChains(sqs[s].indices, sqs[t].indices)
    {
      var x, y := sqs[s].indices, sqs[t].indices;
      forall k, l {:trigger x[k], y[l]} | 0 <= k < |x| && 0 <= l < |y| ensures x[k] != y[l] {
        if x[k] == y[l] {
          DifferentChains(types, levels, base, runs, upto, sqs, s, t, x[k]);
        }
      }
    }
  }

  /** Every visible character lies in exactly one chain, whose level it has. */
  lemma VisibleInOneChain(types: seq<BidiClass>, levels: seq<int>, base: int, runs: seq<LevelRun>, upto: nat,
                          sqs: seq<RunSequence>, k: nat) returns (s: nat)
    requires LevelRunsOf(types, levels, runs, upto) && SequencesOf(types, levels, runs, sqs)
    requires Built(types, base, runs, sqs) && k < |levels| && Visible(levels[k])
    ensures s < |sqs| && k in sqs[s].indices && sqs[s].level == levels[k]
    ensures forall t {:trigger sqs[t]} :: 0 <= t < |sqs| && k in sqs[t].indices ==> t == s
  {
    var r := VisibleInOneRun(types, levels, runs, upto, k);
    s := runs[r].seqId - 1;
    assert r in sqs[s].runs;
    var p :| 0 <= p < |sqs[s].runs| && sqs[s].runs[p] == r;
    assert InRunOf(runs, sqs[s].runs, k);
    ChainMembers(runs, sqs[s].runs, k);
    forall t {:trigger sqs[t]} | 0 <= t < |sqs| && k in sqs[t].indices ensures t == s {
      DifferentChains(types, levels, base, runs, upto, sqs, s, t, k);
    }
    var r' := ChainRun(types, levels, base, runs, upto, sqs, s, k);
  }

  /** The level that bounds a sequence on the left: that of the nearest visible character before its
      first position. */
  lemma SosMeetsX10(types: seq<BidiClass>, levels: seq<int>, base: int, runs: seq<LevelRun>, upto: nat,
                    sqs: seq<RunSequence>, s: nat)
    requires LevelRunsOf(types, levels, runs, upto) && SequencesOf(types, levels, runs, sqs)
    requires Built(types, base, runs, sqs) && s < |sqs|
    requires forall r {:trigger runs[r]} :: 0 <= r < |runs| ==> HasEnds(levels, base, runs[r])
    ensures var first, last := runs[sqs[s].runs[0]], runs[LastRun(sqs[s])];
            && first.start <= |levels| && last.end <= |levels|
            && sqs[s].sos == LevelClass(Max(LevelBefore(levels, base, first.start), sqs[s].level))
            && sqs[s].eos == if EndsWithInit(types, last) then LevelClass(Max(base, sqs[s].level))
                             else LevelClass(Max(LevelAfter(levels, base, last.end), sqs[s].level))
  {
  }

  lemma AssignedRunsExist(types: seq<BidiClass>, levels: seq<int>, runs: seq<LevelRun>, sqs: seq<RunSequence>)
    requires SequencesOf(types, levels, runs, sqs)
    ensures forall s {:trigger sqs[s]} :: 0 <= s < |sqs| ==> RunsExist(runs, sqs[s].runs)
  {
  }

  // ---------------------------------------------------------------- lengths

  /** The lengths of the listed runs together. */
  function SumLen(runs: seq<LevelRun>, idxs: seq<nat>): nat {
    if idxs == [] then 0
    else
      var r := idxs[|idxs| - 1];
      SumLen(runs, idxs[..|idxs| - 1]) + if r < |runs| then runs[r].len else 0
  }

  lemma {:induction false} SumLenSame(a: seq<LevelRun>, b: seq<LevelRun>, idxs: seq<nat>)
    requires SameRuns(a, b)
    ensures SumLen(a, idxs) == SumLen(b, idxs)
    decreases |idxs|
  {
    if idxs != [] {
      var r := idxs[|idxs| - 1];
      SumLenSame(a, b, idxs[..|idxs| - 1]);
      assert r < |a| ==> b[r] == a[r].(seqId := b[r].seqId);
    }
  }

  lemma SumLenAppend(runs: seq<LevelRun>, idxs: seq<nat>, r: nat)
    requires r < |runs|
    ensures SumLen(runs, idxs + [r]) == SumLen(runs, idxs) + runs[r].len
  {
    assert (idxs + [r])[..|idxs|] == idxs;
  }

  /** Every sequence knows the length of its runs together. */
  ghost predicate LensKnown(runs: seq<LevelRun>, sqs: seq<RunSequence>) {
    forall s {:trigger sqs[s]} :: 0 <= s < |sqs| ==> sqs[s].len == SumLen(runs, sqs[s].runs)
  }

  lemma LensKnownSame(a: seq<LevelRun>, b: seq<LevelRun>, sqs: seq<RunSequence>)
    requires SameRuns(a, b) && LensKnown(a, sqs)
    ensures LensKnown(b, sqs)
  {
    forall s {:trigger sqs[s]} | 0 <= s < |sqs| ensures sqs[s].len == SumLen(b, sqs[s].runs) {
      SumLenSame(a, b, sqs[s].runs);
    }
  }

  ghost predicate LensMatch(sqs: seq<RunSequence>) {
    forall s {:trigger sqs[s]} :: 0 <= s < |sqs| ==> sqs[s].len == |sqs[s].indices|
  }

  ghost predicate LensAreEnds(runs: seq<LevelRun>) {
    forall r {:trigger runs[r]} :: 0 <= r < |runs| ==> runs[r].len == runs[r].end - runs[r].start
  }

  lemma {:induction false} SumLenIsChain(runs: seq<LevelRun>, idxs: seq<nat>)
    requires RunsExist(runs, idxs) && LensAreEnds(runs)
    ensures SumLen(runs, idxs) == |ChainIndices(runs, idxs)|
    decreases |idxs|
  {
    if idxs != [] {
      SumLenIsChain(runs, idxs[..|idxs| - 1]);
    }
  }

  lemma LensMatchBuilt(types: seq<BidiClass>, base: int, runs: seq<LevelRun>, sqs: seq<RunSequence>)
    requires Built(types, base, runs, sqs) && LensAreEnds(runs) && LensKnown(runs, sqs)
    ensures LensMatch(sqs)
  {
    forall s {:trigger sqs[s]} | 0 <= s < |sqs| ensures sqs[s].len == |sqs[s].indices| {
      SumLenIsChain(runs, sqs[s].runs);
    }
  }

  // ---------------------------------------------------------------- how the sequences are built

  lemma EndsExist(types: seq<BidiClass>, levels: seq<int>, runs: seq<LevelRun>, sqs: seq<RunSequence>, s: nat)
    requires SequencesOf(types, levels, runs, sqs) && s < |sqs|
    ensures sqs[s].runs != [] && sqs[s].runs[0] < |runs| && LastRun(sqs[s]) < |runs|
    ensures runs[LastRun(sqs[s])].start < runs[LastRun(sqs[s])].end <= |types|
  {
    assert Linked(types, levels, runs, sqs[s], s) && Finished(types, levels, runs, sqs[s], s);
  }

  lemma GivesSides(types: seq<BidiClass>, base: int, runs: seq<LevelRun>, sq: RunSequence, sos: BidiClass,
                   eos: BidiClass)
    requires sq.runs != [] && sq.runs[0] < |runs| && LastRun(sq) < |runs|
    requires runs[LastRun(sq)].start < runs[LastRun(sq)].end <= |types|
    requires sos == runs[sq.runs[0]].sor
    requires eos == if EndsWithInit(types, runs[LastRun(sq)]) then LevelClass(Max(base, sq.level))
                    else runs[LastRun(sq)].eor
    ensures HasSides(types, base, runs, sq.(sos := sos, eos := eos))
  {
  }

  /** The sequences with their sides. */
  ghost predicate Sided(types: seq<BidiClass>, base: int, runs: seq<LevelRun>, plain: seq<RunSequence>,
                        sided: seq<RunSequence>)
  {
    && |sided| == |plain|
    && forall s {:trigger sided[s]} :: 0 <= s < |sided| ==>
         HasSides(types, base, runs, sided[s]) && sided[s] == plain[s].(sos := sided[s].sos, eos := sided[s].eos)
  }

  /** The sequences with their positions. */
  ghost predicate Listed(runs: seq<LevelRun>, sided: seq<RunSequence>, sqs: seq<RunSequence>) {
    && |sqs| == |sided|
    && forall s {:trigger sqs[s]} :: 0 <= s < |sqs| ==>
         && RunsExist(runs, sided[s].runs)
         && sqs[s] == sided[s].(indices := ChainIndices(runs, sided[s].runs))
  }

  lemma ListedSides(types: seq<BidiClass>, base: int, runs: seq<LevelRun>, sq: RunSequence, indices: seq<nat>)
    requires HasSides(types, base, runs, sq)
    ensures HasSides(types, base, runs, sq.(indices := indices))
  {
  }

  lemma SequencesBuilt(types: seq<BidiClass>, levels: seq<int>, base: int, runs: seq<LevelRun>,
                       plain: seq<RunSequence>, sided: seq<RunSequence>, sqs: seq<RunSequence>)
    requires SequencesOf(types, levels, runs, plain) && LensKnown(runs, plain) && LensAreEnds(runs)
    requires Sided(types, base, runs, plain, sided) && Listed(runs, sided, sqs)
    ensures SequencesOf(types, levels, runs, sqs) && Built(types, base, runs, sqs) && LensMatch(sqs)
  {
    forall s {:trigger sqs[s]} | 0 <= s < |sqs|
      ensures sqs[s].runs == plain[s].runs && sqs[s].level == plain[s].level && sqs[s].len == plain[s].len
      ensures RunsExist(runs, sqs[s].runs) && sqs[s].indices == ChainIndices(runs, sqs[s].runs)
      ensures sqs[s].runs != [] && HasSides(types, base, runs, sqs[s])
    {
      assert sided[s] == plain[s].(sos := sided[s].sos, eos := sided[s].eos);
      ListedSides(types, base, runs, sided[s], ChainIndices(runs, sided[s].runs));
    }
    SequencesSame(types, levels, runs, plain, sqs);
    LensMatchBuilt(types, base, runs, sqs);
  }

  lemma LensEndsSame(a: seq<LevelRun>, b: seq<LevelRun>)
    requires SameRuns(a, b) && LensAreEnds(a)
    ensures LensAreEnds(b)
  {
    forall r {:trigger b[r]} | 0 <= r < |b| ensures b[r].len == b[r].end - b[r].start {
      assert b[r] == a[r].(seqId := b[r].seqId);
    }
  }
}
