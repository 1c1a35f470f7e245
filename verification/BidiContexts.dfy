/** `BidiContext` of `bidi/src/lib.rs`: the object whose fields the rules overwrite in turn. */
module BidiContexts {
  import opened Options
  import opened BidiTypes
  import opened LevelStacks
  import opened ParagraphLevels
  import opened ExplicitLevels
  import opened ExplicitText
  import opened ExplicitMachine
  import opened LevelRuns
  import opened Chains
  import opened TextChains
  import opened WeakTypes
  import opened Neutrals
  import opened Brackets
  import opened ChainRules
  import opened BracketRules
  import opened Lines
  import opened Resolution
  import opened Reorder
  import opened VisualOrder
  import opened VisualRuns

  /** The states of the machine on a text, with what they determine. */
  ghost predicate AreStates(base: int, text: seq<BidiClass>, lv: seq<int>, g: seq<BidiClass>, states: seq<XState>) {
    && |states| == |text| + 1 && |lv| == |g| == |text|
    && (forall k, l {:trigger states[k], states[l]} :: 0 <= k < l <= |text| && l == k + 1 ==>
          states[l] == Step(states[k], SymbolAt(text, k)))
    && forall k {:trigger lv[k]} {:trigger g[k]} :: 0 <= k < |text| ==>
         var s := states[if text[k].PopDirectionalIsolate? then k + 1 else k];
         lv[k] == LevelIn(base, s, text[k]) && g[k] == ClassIn(s, text[k])
  }

  lemma StatesOf(base: int, text: seq<BidiClass>) returns (states: seq<XState>)
    ensures AreStates(base, text, LevelsOf(base, text), ClassesOf(base, text), states)
    ensures states[0] == Initial(base)
    ensures NeverPanics(base, text) <==> forall k {:trigger states[k]} :: 0 <= k <= |text| ==> states[k].Nonempty()
  {
    states := seq(|text| + 1, k requires 0 <= k <= |text| => StateAt(base, text, k));
    assert Symbols(text)[..0] == [];
    assert forall k {:trigger StateAt(base, text, k)} :: 0 <= k <= |text| ==> states[k] == StateAt(base, text, k);
    forall k, l {:trigger states[k], states[l]} | 0 <= k < l <= |text| && l == k + 1
      ensures states[l] == Step(states[k], SymbolAt(text, k))
    {
      StateStep(base, text, k);
    }
  }

  /** `Vec::resize` with the default level 0 */
  function Resized(levels: seq<int>, n: nat): (r: seq<int>)
    ensures |r| == n
    ensures forall k {:trigger r[k]} :: 0 <= k < n ==> r[k] == if k < |levels| then levels[k] else 0
  {
    seq(n, k requires 0 <= k < n => if k < |levels| then levels[k] else 0)
  }

  /** The first `n` characters have their explicit levels `lv` and classes `g`; the others have the
      classes of the text and the levels `stale` of the previous paragraph, which format characters
      keep. */
  ghost predicate AssignedTo(types: seq<BidiClass>, levels: seq<int>, text: seq<BidiClass>, stale: seq<int>,
                             lv: seq<int>, g: seq<BidiClass>, n: nat)
  {
    && |types| == |levels| == |text| == |stale| == |lv| == |g| && n <= |text|
    && (forall k {:trigger types[k]} :: 0 <= k < |text| ==> types[k] == if k < n then g[k] else text[k])
    && (forall k {:trigger levels[k]} :: 0 <= k < |text| ==>
          levels[k] == if k < n && !text[k].IsRemovedByX9() then lv[k] else stale[k])
  }

  lemma AssignNext(types: seq<BidiClass>, levels: seq<int>, text: seq<BidiClass>, stale: seq<int>, lv: seq<int>,
                   g: seq<BidiClass>, n: nat)
    requires AssignedTo(types, levels, text, stale, lv, g, n) && n < |text|
    ensures AssignedTo(types[n := g[n]], if text[n].IsRemovedByX9() then levels else levels[n := lv[n]],
                       text, stale, lv, g, n + 1)
  {
  }

  class BidiContext {
    var origCharTypes: seq<BidiClass>
    var charTypes: seq<BidiClass>
    var levels: seq<int>
    var baseLevel: int
    var runs: seq<LevelRun>

    /** What the rules for lines rely on: it holds of a new object and after every `Resolve` that
        does not panic. */
    ghost predicate Settled()
      reads this
    {
      && |levels| == |origCharTypes| && 0 <= baseLevel <= 1
      && LevelsInRange(levels) && SeparatorsVisible(origCharTypes, levels)
    }

    constructor ()
      ensures Settled()
      ensures origCharTypes == charTypes == [] && levels == [] && baseLevel == 0 && runs == []
    {
      origCharTypes, charTypes, levels, baseLevel, runs := [], [], [], 0, [];
    }

    // -------------------------------------------------------------- X1 to X9

    /** Writes the level and class that the top of the stack gives to the character at `idx`. */
    method TakeFromTop(idx: nat, stack: LevelStack)
      requires stack.Valid() && stack.Entries() != [] && idx < |charTypes| == |levels|
      modifies `charTypes, `levels
      ensures charTypes == old(charTypes)[idx := Overridden(stack.Entries()[stack.depth - 1].override,
                                                            old(charTypes)[idx])]
      ensures levels == old(levels)[idx := stack.Entries()[stack.depth - 1].level]
      ensures stack.Valid() && stack.Entries() == old(stack.Entries())
    {
      levels := levels[idx := stack.EmbeddingLevel()];
      charTypes := charTypes[idx := stack.ApplyOverride(charTypes[idx])];
    }

    /** Once the machine has moved, a separator gets the paragraph level, and a PDI what is then on top. */
    method TakeAfter(idx: nat, stack: LevelStack, bc: BidiClass)
      requires stack.Valid() && stack.Entries() != [] && idx < |charTypes| == |levels|
      modifies `charTypes, `levels
      ensures var top := stack.Entries()[stack.depth - 1];
              && charTypes == (if bc.PopDirectionalIsolate?
                               then old(charTypes)[idx := Overridden(top.override, old(charTypes)[idx])]
                               else old(charTypes))
              && levels == (if bc.PopDirectionalIsolate? then old(levels)[idx := top.level]
                            else if bc.ParagraphSeparator? then old(levels)[idx := baseLevel] else old(levels))
      ensures stack.Valid() && stack.Entries() == old(stack.Entries())
    {
      if bc.ParagraphSeparator? {
        levels := levels[idx := baseLevel];
      } else if bc.PopDirectionalIsolate? {
        TakeFromTop(idx, stack);
      }
    }

    ghost predicate Assigned(text: seq<BidiClass>, stale: seq<int>, lv: seq<int>, g: seq<BidiClass>, n: nat)
      reads this
    {
      AssignedTo(charTypes, levels, text, stale, lv, g, n)
    }

    /** X5c: an FSI acts as the initiator that the text after it asks for. */
    method SymbolFor(idx: nat, ghost text: seq<BidiClass>) returns (symbol: BidiClass)
      requires idx < |charTypes| == |text| && charTypes[idx..] == text[idx..]
      ensures charTypes[idx] == text[idx] && symbol == SymbolAt(text, idx)
    {
      assert charTypes[idx] == charTypes[idx..][0] == text[idx];
      assert charTypes[idx + 1..] == charTypes[idx..][1..] == text[idx + 1..];
      symbol := charTypes[idx];
      if symbol.FirstStrongIsolate? {
        var level := ParagraphLevel(charTypes[idx + 1..], true, LTR);
        symbol := if level == 1 then RightToLeftIsolate else LeftToRightIsolate;
      }
    }

    /** X2 to X8 for the character at `idx`; `s` and `s'` are the states around it. */
    method ExplicitCharacter(idx: nat, stack: LevelStack, n: Counters, ghost text: seq<BidiClass>,
                             ghost stale: seq<int>, ghost lv: seq<int>, ghost g: seq<BidiClass>,
                             ghost s: XState, ghost s': XState)
      returns (ok: bool, n': Counters)
      requires Assigned(text, stale, lv, g, idx) && idx < |text|
      requires stack.Valid() && stack.Entries() != [] && View(stack, n) == s
      requires s' == Step(s, SymbolAt(text, idx))
      requires lv[idx] == LevelIn(baseLevel, if text[idx].PopDirectionalIsolate? then s' else s, text[idx])
      requires g[idx] == ClassIn(if text[idx].PopDirectionalIsolate? then s' else s, text[idx])
      modifies `charTypes, `levels, stack.Repr()
      ensures stack.Valid()
      ensures if ok then Assigned(text, stale, lv, g, idx + 1) && View(stack, n') == s' && stack.Entries() != []
              else s'.Panic?
    {
      assert charTypes[idx..] == text[idx..];
      ghost var types0, levels0 := charTypes, levels;
      var bc := charTypes[idx];
      var symbol := SymbolFor(idx, text);
      if !bc.IsRemovedByX9() && !bc.ParagraphSeparator? && !bc.PopDirectionalIsolate? {
        TakeFromTop(idx, stack);
      }
      ok, n' := Move(stack, n, symbol);
      if !ok {
        return;
      }
      TakeAfter(idx, stack, bc);
      assert charTypes == types0[idx := g[idx]];
      assert levels == if bc.IsRemovedByX9() then levels0 else levels0[idx := lv[idx]];
      AssignNext(types0, levels0, text, stale, lv, g, idx);
    }

    /** Rules X1 to X8.  `ok` is false when the code panics. */
    method ExplicitEmbeddingLevels() returns (ok: bool)
      requires 0 <= baseLevel <= 1
      modifies `charTypes, `levels
      ensures ok <==> NeverPanics(baseLevel, old(charTypes))
      ensures ok ==> Assigned(old(charTypes), Resized(old(levels), |charTypes|),
                              LevelsOf(baseLevel, old(charTypes)), ClassesOf(baseLevel, old(charTypes)),
                              |charTypes|)
    {
      ghost var text, stale := charTypes, Resized(levels, |charTypes|);
      ghost var states := StatesOf(baseLevel, text);
      var stack := new LevelStack();
      stack.Push(baseLevel, NeutralOverride, false);
      levels := Resized(levels, |charTypes|);
      ok := ExplicitCharacters(stack, text, stale, LevelsOf(baseLevel, text), ClassesOf(baseLevel, text), states);
    }

    /** One character after the other, through the given states of the machine. */
    method ExplicitCharacters(stack: LevelStack, ghost text: seq<BidiClass>, ghost stale: seq<int>,
                              ghost lv: seq<int>, ghost g: seq<BidiClass>, ghost states: seq<XState>)
      returns (ok: bool)
      requires Assigned(text, stale, lv, g, 0) && stack.Valid() && stack.Entries() != []
      requires AreStates(baseLevel, text, lv, g, states) && View(stack, Counters(0, 0, 0)) == states[0]
      modifies `charTypes, `levels, stack.Repr()
      ensures ok <==> forall k {:trigger states[k]} :: 0 <= k <= |text| ==> states[k].Nonempty()
      ensures ok ==> Assigned(text, stale, lv, g, |text|)
    {
      var len := |charTypes|;
      var counters := Counters(0, 0, 0);
      var idx := 0;
      while idx < len
        invariant idx <= len && stack.Valid() && stack.Entries() != []
        invariant Assigned(text, stale, lv, g, idx)
        invariant View(stack, counters) == states[idx]
        invariant forall k {:trigger states[k]} :: 0 <= k <= idx ==> states[k].Nonempty()
      {
        ok, counters := ExplicitCharacter(idx, stack, counters, text, stale, lv, g, states[idx], states[idx + 1]);
        if !ok {
          return;
        }
        idx := idx + 1;
      }
      ok := true;
    }

    /** Rule X9 */
    method DeleteFormatCharacters()
      requires |charTypes| == |levels|
      modifies `levels
      ensures |levels| == old(|levels|)
      ensures forall k {:trigger levels[k]} :: 0 <= k < |levels| ==>
        levels[k] == if charTypes[k].IsRemovedByX9() then NO_LEVEL else old(levels)[k]
    {
      for k := 0 to |charTypes|
        invariant |levels| == old(|levels|)
        invariant forall j {:trigger levels[j]} :: 0 <= j < |levels| ==>
          levels[j] == if j < k && charTypes[j].IsRemovedByX9() then NO_LEVEL else old(levels)[j]
      {
        if charTypes[k].IsRemovedByX9() {
          levels := levels[k := NO_LEVEL];
        }
      }
    }

    // -------------------------------------------------------------- X10

    method IdentifyRuns() returns (ghost upto: nat)
      requires |charTypes| == |levels|
      modifies `runs
      ensures LevelRunsOf(charTypes, levels, runs, upto)
      ensures forall r {:trigger runs[r]} :: 0 <= r < |runs| ==>
        runs[r].seqId == 0 && HasEnds(levels, baseLevel, runs[r])
    {
      upto := CollectLevelRuns();
      ghost var before := runs;
      CalculateSorEor();
      EndsMeetX10(charTypes, levels, baseLevel, before, runs, upto);
    }

    method CollectLevelRuns() returns (ghost upto: nat)
      requires |charTypes| == |levels|
      modifies `runs
      ensures LevelRunsOf(charTypes, levels, runs, upto)
      ensures forall r {:trigger runs[r]} :: 0 <= r < |runs| ==> runs[r].seqId == 0
    {
      upto := 0;
      var idx, len := 0, |charTypes|;
      runs := [];
      while idx < len
        invariant len == |charTypes| == |levels| && Collected(charTypes, levels, runs, upto, idx)
      {
        var spanLevel, spanLen := SpanOneRun(charTypes, levels, idx);
        var run := LevelRun(idx, idx + spanLen, spanLen, 0, spanLevel, OtherNeutral, OtherNeutral);
        CollectSpan(charTypes, levels, runs, idx, run);
        if Visible(spanLevel) {
          runs := runs + [run];
          upto := idx + spanLen;
        }
        idx := idx + spanLen;
      }
    }

    /** Each run is compared with its neighbours in the list of runs. */
    method CalculateSorEor()
      modifies `runs
      ensures |runs| == old(|runs|)
      ensures forall r {:trigger runs[r]} :: 0 <= r < |runs| ==> runs[r] == WithEnds(old(runs), baseLevel, r)
    {
      var priorRunLevel := baseLevel;
      for r := 0 to |runs|
        invariant |runs| == old(|runs|)
        invariant r < |runs| ==> priorRunLevel == PriorRunLevel(old(runs), baseLevel, r)
        invariant forall q {:trigger runs[q]} :: r <= q < |runs| ==> runs[q] == old(runs)[q]
        invariant forall q {:trigger runs[q]} :: 0 <= q < r ==> runs[q] == WithEnds(old(runs), baseLevel, q)
      {
        var nextRunLevel := if r + 1 < |runs| then runs[r + 1].level else baseLevel;
        var level := runs[r].level;
        runs := runs[r := runs[r].(sor := LevelClass(Max(priorRunLevel, level)),
                                   eor := LevelClass(Max(nextRunLevel, level)))];
        priorRunLevel := level;
      }
    }

    /** Run `idx` continues the sequence `sq`. */
    method TakeRun(idx: nat, seqId: nat, sq: RunSequence, ghost sqs: seq<RunSequence>) returns (sq': RunSequence)
      requires Linking(charTypes, levels, runs, sqs, sq, idx) && idx < |runs| && seqId == |sqs| + 1
      requires runs[idx].seqId == 0 && runs[idx].level == sq.level && StartsWithPdi(charTypes, levels, runs[idx])
      requires sq.len == SumLen(runs, sq.runs)
      modifies `runs
      ensures runs == Claim(old(runs), idx, seqId) && SameRuns(old(runs), runs)
      ensures sq' == sq.(runs := sq.runs + [idx], len := sq'.len) && sq'.len == SumLen(old(runs), sq'.runs)
      ensures WellPlaced(charTypes, levels, runs) && Sequenced(charTypes, levels, runs, sqs, |sqs|)
      ensures Owned(runs, sqs + [sq']) && Linked(charTypes, levels, runs, sq', |sqs|)
      ensures if EndsWithInit(charTypes, runs[idx]) then Linking(charTypes, levels, runs, sqs, sq', idx + 1)
              else Finished(charTypes, levels, runs, sq', |sqs|)
    {
      SumLenAppend(runs, sq.runs, idx);
      sq' := sq.(runs := sq.runs + [idx], len := sq.len + runs[idx].len);
      LinkTake(charTypes, levels, runs, sqs, sq, sq', idx);
      runs := runs[idx := runs[idx].(seqId := seqId)];
    }

    /** Looks ahead for the runs that continue the sequence `sq` from run `runIdx` on. */
    method LinkRuns(runIdx: nat, sq: RunSequence, ghost sqs: seq<RunSequence>) returns (sq': RunSequence)
      requires sq.runs == [runIdx] && Linking(charTypes, levels, runs, sqs, sq, runIdx + 1)
      requires runs[runIdx].seqId == |sqs| + 1 && sq.len == SumLen(runs, sq.runs)
      modifies `runs
      ensures SameRuns(old(runs), runs) && WellPlaced(charTypes, levels, runs)
      ensures Sequenced(charTypes, levels, runs, sqs + [sq'], |sqs| + 1) && Owned(runs, sqs + [sq'])
      ensures sq' == sq.(runs := sq'.runs, len := sq'.len) && sq'.len == SumLen(old(runs), sq'.runs)
    {
      sq' := sq;
      var seqId := runs[runIdx].seqId;
      var idx, numRuns := runIdx + 1, |runs|;
      while idx < numRuns
        invariant runIdx < idx <= numRuns == |runs| && SameRuns(old(runs), runs)
        invariant Linking(charTypes, levels, runs, sqs, sq', idx)
        invariant sq' == sq.(runs := sq'.runs, len := sq'.len) && sq'.len == SumLen(old(runs), sq'.runs)
      {
        if runs[idx].seqId == 0 && runs[idx].level == sq.level && StartsWithPdi(charTypes, levels, runs[idx]) {
          ghost var runs0 := runs;
          SumLenSame(old(runs), runs, sq'.runs);
          sq' := TakeRun(idx, seqId, sq', sqs);
          SumLenSame(old(runs), runs0, sq'.runs);
          SameRunsAcross(old(runs), runs0, runs);
          if !EndsWithInit(charTypes, runs[idx]) {
            break;
          }
        } else {
          LinkSkip(charTypes, levels, runs, sqs, sq', idx);
        }
        idx := idx + 1;
      }
      SequencedAppend(charTypes, levels, runs, sqs, sq');
    }

    /** A free run starts a sequence. */
    method AssignRun(runIdx: nat, isoRuns: seq<RunSequence>, ghost runs0: seq<LevelRun>)
      returns (isoRuns': seq<RunSequence>)
      requires Assigning(charTypes, levels, runs0, runs, isoRuns, runIdx) && runIdx < |runs|
      requires runs[runIdx].seqId == 0 && LensKnown(runs0, isoRuns)
      modifies `runs
      ensures Assigning(charTypes, levels, runs0, runs, isoRuns', runIdx + 1)
      ensures LensKnown(runs0, isoRuns')
    {
      ghost var before := runs;
      var sq := RunSequence([runIdx], runs[runIdx].len, runs[runIdx].level, OtherNeutral, OtherNeutral, []);
      StartSequence(charTypes, levels, runs, isoRuns, sq, runIdx);
      runs := runs[runIdx := runs[runIdx].(seqId := |isoRuns| + 1)];
      ghost var claimed := runs;
      SumLenAppend(claimed, [], runIdx);
      if EndsWithInit(charTypes, runs[runIdx]) {
        sq := LinkRuns(runIdx, sq, isoRuns);
      } else {
        SequencedAppend(charTypes, levels, runs, isoRuns, sq);
      }
      isoRuns' := isoRuns + [sq];
      SameRunsAcross(before, claimed, runs);
      SameRunsAcross(runs0, before, claimed);
      SumLenSame(runs0, claimed, sq.runs);
      SameRunsAcross(runs0, before, runs);
      assert claimed[runIdx].seqId != 0;
    }

    /** Assigns every level run to a sequence. */
    method AssignSequences() returns (isoRuns: seq<RunSequence>)
      requires WellPlaced(charTypes, levels, runs)
      requires forall r {:trigger runs[r]} :: 0 <= r < |runs| ==> runs[r].seqId == 0
      modifies `runs
      ensures SameRuns(old(runs), runs) && SequencesOf(charTypes, levels, runs, isoRuns)
      ensures forall s {:trigger isoRuns[s]} :: 0 <= s < |isoRuns| ==> isoRuns[s].indices == []
      ensures LensKnown(old(runs), isoRuns)
    {
      isoRuns := [];
      var runIdx, numRuns := 0, |runs|;
      while runIdx < numRuns
        invariant 0 <= runIdx <= numRuns == |runs|
        invariant Assigning(charTypes, levels, old(runs), runs, isoRuns, runIdx) && LensKnown(old(runs), isoRuns)
      {
        if runs[runIdx].seqId == 0 {
          isoRuns := AssignRun(runIdx, isoRuns, old(runs));
        }
        runIdx := runIdx + 1;
      }
    }

    /** sos and eos come from the first and the last run of a sequence, or from the base level when
        the sequence ends with an unmatched initiator. */
    method CalculateSosEos(isoRuns: seq<RunSequence>) returns (r: seq<RunSequence>)
      requires SequencesOf(charTypes, levels, runs, isoRuns)
      ensures Sided(charTypes, baseLevel, runs, isoRuns, r)
    {
      r := isoRuns;
      for s := 0 to |isoRuns|
        invariant |r| == |isoRuns|
        invariant forall t {:trigger r[t]} :: s <= t < |r| ==> r[t] == isoRuns[t]
        invariant forall t {:trigger r[t]} :: 0 <= t < s ==>
          HasSides(charTypes, baseLevel, runs, r[t]) && r[t] == isoRuns[t].(sos := r[t].sos, eos := r[t].eos)
      {
        var sq := isoRuns[s];
        EndsExist(charTypes, levels, runs, isoRuns, s);
        var first, last := runs[sq.runs[0]], runs[LastRun(sq)];
        var eos := last.eor;
        if EndsWithInit(charTypes, last) {
          var higherLevel := Max(baseLevel, sq.level);
          eos := LevelClass(higherLevel);
        }
        GivesSides(charTypes, baseLevel, runs, sq, first.sor, eos);
        r := r[s := sq.(sos := first.sor, eos := eos)];
      }
    }

    /** Lists the character positions of each sequence. */
    method BuildTextChains(isoRuns: seq<RunSequence>) returns (r: seq<RunSequence>)
      requires forall s {:trigger isoRuns[s]} :: 0 <= s < |isoRuns| ==>
        RunsExist(runs, isoRuns[s].runs) && isoRuns[s].indices == []
      ensures Listed(runs, isoRuns, r)
    {
      r := isoRuns;
      for s := 0 to |isoRuns|
        invariant |r| == |isoRuns|
        invariant forall t {:trigger r[t]} :: s <= t < |r| ==> r[t] == isoRuns[t]
        invariant forall t {:trigger r[t]} :: 0 <= t < s ==>
          && RunsExist(runs, isoRuns[t].runs)
          && r[t] == isoRuns[t].(indices := ChainIndices(runs, isoRuns[t].runs))
      {
        var indices := ListPositions(isoRuns[s].runs);
        r := r[s := isoRuns[s].(indices := indices)];
      }
    }

    method ListPositions(idxs: seq<nat>) returns (indices: seq<nat>)
      requires RunsExist(runs, idxs)
      ensures indices == ChainIndices(runs, idxs)
    {
      indices := [];
      for p := 0 to |idxs|
        invariant RunsExist(runs, idxs[..p]) && indices == ChainIndices(runs, idxs[..p])
      {
        ChainNext(runs, idxs, p);
        indices := indices + Range(runs[idxs[p]].start, runs[idxs[p]].end);
      }
      assert idxs[..|idxs|] == idxs;
    }

    method IdentifyIsolatingRunSequences() returns (isoRuns: seq<RunSequence>)
      requires WellPlaced(charTypes, levels, runs)
      requires LensAreEnds(runs)
      requires forall r {:trigger runs[r]} :: 0 <= r < |runs| ==> runs[r].seqId == 0
      modifies `runs
      ensures SameRuns(old(runs), runs) && SequencesOf(charTypes, levels, runs, isoRuns)
      ensures Built(charTypes, baseLevel, runs, isoRuns) && LensMatch(isoRuns)
    {
      var plain := AssignSequences();
      LensKnownSame(old(runs), runs, plain);
      LensEndsSame(old(runs), runs);
      var sided := CalculateSosEos(plain);
      AssignedRunsExist(charTypes, levels, runs, plain);
      isoRuns := BuildTextChains(sided);
      SequencesBuilt(charTypes, levels, baseLevel, runs, plain, sided, isoRuns);
    }

    // -------------------------------------------------------------- W1 to W3, W6

    method ResolveCombiningMarksIn(sq: RunSequence)
      requires ChainReady(charTypes, levels, sq)
      modifies `charTypes
      ensures ChainDone(W1, old(charTypes), charTypes, levels, sq)
    {
      ghost var idx, g, lv := sq.indices, Gather(charTypes, sq.indices), Gather(levels, sq.indices);
      ghost var r := ApplyRule(W1, g, lv, sq);
      ApplyRuleIsResult(W1, g, lv, sq);
      var priorBc := sq.sos;
      for k := 0 to |sq.indices|
        invariant |charTypes| == |levels| && GoingUp(old(charTypes), charTypes, idx, g, r, k)
        invariant priorBc == MarkBase(g, lv, sq.sos, k)
      {
        var i := sq.indices[k];
        UpReads(old(charTypes), charTypes, idx, g, r, k, k);
        assert r[k] == RuleAt(W1, g, lv, sq, k);
        if charTypes[i].NonspacingMark? {
          UpWrite(old(charTypes), charTypes, idx, g, r, k, priorBc);
          charTypes := charTypes[i := priorBc];
        } else {
          UpKeep(old(charTypes), charTypes, idx, g, r, k);
          if Visible(levels[i]) {
            priorBc := charTypes[i];
          }
        }
      }
      UpDone(W1, old(charTypes), charTypes, levels, sq, g, r);
    }

    /** The search back for a strong type. */
    method FirstStrongBefore(indices: seq<nat>, ridx: nat, sos: BidiClass, al: bool) returns (bc: BidiClass)
      requires InBounds(indices, |charTypes|) && ridx <= |indices|
      ensures bc == LastStrong(Gather(charTypes, indices), al, sos, ridx)
    {
      ghost var g := Gather(charTypes, indices);
      var p := ridx;
      while 0 < p
        invariant 0 <= p <= ridx && LastStrong(g, al, sos, ridx) == LastStrong(g, al, sos, p)
      {
        p := p - 1;
        bc := charTypes[indices[p]];
        assert bc == g[p];
        if bc.LeftToRight? || bc.RightToLeft? || (al && bc.ArabicLetter?) {
          return;
        }
      }
      bc := sos;
    }

    method ResolveEuropeanNumbersIn(sq: RunSequence)
      requires ChainReady(charTypes, levels, sq)
      modifies `charTypes
      ensures ChainDone(W2, old(charTypes), charTypes, levels, sq)
    {
      ghost var idx, g, lv := sq.indices, Gather(charTypes, sq.indices), Gather(levels, sq.indices);
      ghost var r := ApplyRule(W2, g, lv, sq);
      ApplyRuleIsResult(W2, g, lv, sq);
      for k := 0 to |sq.indices|
        invariant |charTypes| == |levels| && GoingUp(old(charTypes), charTypes, idx, g, r, k)
      {
        var i := sq.indices[k];
        UpReads(old(charTypes), charTypes, idx, g, r, k, k);
        W2Value(g, lv, sq, r, Gather(charTypes, idx), k);
        if charTypes[i].EuropeanNumber? {
          var firstStrongBc := FirstStrongBefore(sq.indices, k, sq.sos, true);
          if firstStrongBc.ArabicLetter? {
            UpWrite(old(charTypes), charTypes, idx, g, r, k, ArabicNumber);
            charTypes := charTypes[i := ArabicNumber];
          } else {
            UpKeep(old(charTypes), charTypes, idx, g, r, k);
          }
        } else {
          UpKeep(old(charTypes), charTypes, idx, g, r, k);
        }
      }
      UpDone(W2, old(charTypes), charTypes, levels, sq, g, r);
    }

    method ResolveArabicLettersIn(sq: RunSequence)
      requires ChainReady(charTypes, levels, sq)
      modifies `charTypes
      ensures ChainDone(W3, old(charTypes), charTypes, levels, sq)
    {
      ghost var idx, g, lv := sq.indices, Gather(charTypes, sq.indices), Gather(levels, sq.indices);
      ghost var r := ApplyRule(W3, g, lv, sq);
      ApplyRuleIsResult(W3, g, lv, sq);
      for k := 0 to |sq.indices|
        invariant |charTypes| == |levels| && GoingUp(old(charTypes), charTypes, idx, g, r, k)
      {
        var i := sq.indices[k];
        UpReads(old(charTypes), charTypes, idx, g, r, k, k);
        assert r[k] == RuleAt(W3, g, lv, sq, k);
        if charTypes[i].ArabicLetter? {
          UpWrite(old(charTypes), charTypes, idx, g, r, k, RightToLeft);
          charTypes := charTypes[i := RightToLeft];
        } else {
          UpKeep(old(charTypes), charTypes, idx, g, r, k);
        }
      }
      UpDone(W3, old(charTypes), charTypes, levels, sq, g, r);
    }

    method ResolveEsCsEtIn(sq: RunSequence)
      requires ChainReady(charTypes, levels, sq)
      modifies `charTypes
      ensures ChainDone(W6, old(charTypes), charTypes, levels, sq)
    {
      ghost var idx, g, lv := sq.indices, Gather(charTypes, sq.indices), Gather(levels, sq.indices);
      ghost var r := ApplyRule(W6, g, lv, sq);
      ApplyRuleIsResult(W6, g, lv, sq);
      for k := 0 to |sq.indices|
        invariant |charTypes| == |levels| && GoingUp(old(charTypes), charTypes, idx, g, r, k)
      {
        var i := sq.indices[k];
        UpReads(old(charTypes), charTypes, idx, g, r, k, k);
        assert r[k] == RuleAt(W6, g, lv, sq, k);
        match charTypes[i] {
          case EuropeanSeparator | CommonSeparator | EuropeanTerminator =>
            UpWrite(old(charTypes), charTypes, idx, g, r, k, OtherNeutral);
            charTypes := charTypes[i := OtherNeutral];
          case _ =>
            UpKeep(old(charTypes), charTypes, idx, g, r, k);
        }
      }
      UpDone(W6, old(charTypes), charTypes, levels, sq, g, r);
    }

    // -------------------------------------------------------------- W4

    /** Whether the nearest visible character before the position has class `bc`. */
    method IsPriorContext(indexIdx: nat, indices: seq<nat>, bc: BidiClass) returns (r: Option<nat>)
      requires |charTypes| == |levels| && InBounds(indices, |charTypes|) && indexIdx <= |indices|
      requires Consistent(Gather(charTypes, indices), Gather(levels, indices)) && !bc.IsRemovedByX9()
      ensures var g, p := Gather(charTypes, indices), PrevVisible(Gather(levels, indices), indexIdx);
              r == if 0 <= p && g[p] == bc then Some(indices[p]) else None
    {
      ghost var g, lv := Gather(charTypes, indices), Gather(levels, indices);
      var p := indexIdx;
      while 0 < p
        invariant 0 <= p <= indexIdx && PrevVisible(lv, p) == PrevVisible(lv, indexIdx)
      {
        p := p - 1;
        var i := indices[p];
        assert charTypes[i] == g[p] && levels[i] == lv[p];
        if charTypes[i] == bc {
          return Some(i);
        }
        if Visible(levels[i]) {
          return None;
        }
      }
      return None;
    }

    method IsFollowingContext(indexIdx: nat, indices: seq<nat>, bc: BidiClass) returns (r: Option<nat>)
      requires |charTypes| == |levels| && InBounds(indices, |charTypes|) && indexIdx < |indices|
      requires Consistent(Gather(charTypes, indices), Gather(levels, indices)) && !bc.IsRemovedByX9()
      ensures var g, n := Gather(charTypes, indices), NextVisible(Gather(levels, indices), indexIdx + 1);
              r == if n < |indices| && g[n] == bc then Some(indices[n]) else None
    {
      ghost var g, lv := Gather(charTypes, indices), Gather(levels, indices);
      var n := indexIdx + 1;
      while n < |indices|
        invariant n <= |indices| && NextVisible(lv, n) == NextVisible(lv, indexIdx + 1)
      {
        var i := indices[n];
        assert charTypes[i] == g[n] && levels[i] == lv[n];
        if charTypes[i] == bc {
          return Some(i);
        }
        if Visible(levels[i]) {
          return None;
        }
        n := n + 1;
      }
      return None;
    }

    method IsInContext(indexIdx: nat, indices: seq<nat>, bc: BidiClass) returns (r: bool)
      requires |charTypes| == |levels| && InBounds(indices, |charTypes|) && indexIdx < |indices|
      requires Consistent(Gather(charTypes, indices), Gather(levels, indices)) && !bc.IsRemovedByX9()
      ensures r == Between(Gather(charTypes, indices), Gather(levels, indices), indexIdx, bc)
    {
      var prior := IsPriorContext(indexIdx, indices, bc);
      if prior == None {
        return false;
      }
      var following := IsFollowingContext(indexIdx, indices, bc);
      return following.Some?;
    }

    method ResolveSeparatorsIn(sq: RunSequence)
      requires ChainReady(charTypes, levels, sq)
      modifies `charTypes
      ensures ChainDone(W4, old(charTypes), charTypes, levels, sq)
    {
      ghost var idx, g, lv := sq.indices, Gather(charTypes, sq.indices), Gather(levels, sq.indices);
      ghost var r := ApplyRule(W4, g, lv, sq);
      ApplyRuleIsResult(W4, g, lv, sq);
      ResultConsistent(W4, g, lv, sq, r);
      for k := 0 to |sq.indices|
        invariant |charTypes| == |levels| && GoingUp(old(charTypes), charTypes, idx, g, r, k)
      {
        var i := sq.indices[k];
        var bc := charTypes[i];
        UpReads(old(charTypes), charTypes, idx, g, r, k, k);
        MixedConsistent(g, lv, r, Gather(charTypes, idx), k);
        W4Value(g, lv, sq, r, Gather(charTypes, idx), k);
        if bc.EuropeanSeparator? {
          var inNumber := IsInContext(k, sq.indices, EuropeanNumber);
          if inNumber {
            bc := EuropeanNumber;
          }
        } else if bc.CommonSeparator? {
          var inNumber := IsInContext(k, sq.indices, EuropeanNumber);
          if inNumber {
            bc := EuropeanNumber;
          } else {
            var inArabicNumber := IsInContext(k, sq.indices, ArabicNumber);
            if inArabicNumber {
              bc := ArabicNumber;
            }
          }
        }
        UpWrite(old(charTypes), charTypes, idx, g, r, k, bc);
        charTypes := charTypes[i := bc];
      }
      UpDone(W4, old(charTypes), charTypes, levels, sq, g, r);
    }

    // -------------------------------------------------------------- W5

    /** The scan back from a number over terminators and removed characters. */
    method FillBackward(indexIdx: nat, indices: seq<nat>) returns (ghost a: nat)
      requires |charTypes| == |levels| && InBounds(indices, |charTypes|) && Ascending(indices)
      requires indexIdx < |indices|
      modifies `charTypes
      ensures SameOff(old(charTypes), charTypes, indices)
      ensures var g, lv := Gather(old(charTypes), indices), Gather(levels, indices);
              Scanned(g, lv, Gather(charTypes, indices), a, indexIdx) && (a == 0 || StopsScan(g, lv, a - 1))
    {
      ghost var g, lv := Gather(charTypes, indices), Gather(levels, indices);
      var p := indexIdx;
      while 0 < p
        invariant 0 <= p <= indexIdx && SameOff(old(charTypes), charTypes, indices)
        invariant Scanned(g, lv, Gather(charTypes, indices), p, indexIdx)
      {
        var i := indices[p - 1];
        assert Gather(charTypes, indices)[p - 1] == charTypes[i] && lv[p - 1] == levels[i];
        if charTypes[i].EuropeanTerminator? {
          GatherUpdate(charTypes, indices, p - 1, EuropeanNumber);
          charTypes := charTypes[i := EuropeanNumber];
        } else if Visible(levels[i]) {
          assert StopsScan(g, lv, p - 1);
          break;
        }
        p := p - 1;
      }
      a := p;
    }

    method FillForward(indexIdx: nat, indices: seq<nat>) returns (ghost b: nat)
      requires |charTypes| == |levels| && InBounds(indices, |charTypes|) && Ascending(indices)
      requires indexIdx < |indices|
      modifies `charTypes
      ensures SameOff(old(charTypes), charTypes, indices)
      ensures var g, lv := Gather(old(charTypes), indices), Gather(levels, indices);
              Scanned(g, lv, Gather(charTypes, indices), indexIdx + 1, b) && (b == |g| || StopsScan(g, lv, b))
    {
      ghost var g, lv := Gather(charTypes, indices), Gather(levels, indices);
      var n := indexIdx + 1;
      while n < |indices|
        invariant n <= |indices| && SameOff(old(charTypes), charTypes, indices)
        invariant Scanned(g, lv, Gather(charTypes, indices), indexIdx + 1, n)
      {
        var i := indices[n];
        assert Gather(charTypes, indices)[n] == charTypes[i] && lv[n] == levels[i];
        if charTypes[i].EuropeanTerminator? {
          GatherUpdate(charTypes, indices, n, EuropeanNumber);
          charTypes := charTypes[i := EuropeanNumber];
        } else if Visible(levels[i]) {
          assert StopsScan(g, lv, n);
          break;
        }
        n := n + 1;
      }
      b := n;
    }

    method ResolveTerminatorsIn(sq: RunSequence)
      requires ChainReady(charTypes, levels, sq)
      modifies `charTypes
      ensures ChainDone(W5, old(charTypes), charTypes, levels, sq)
    {
      ghost var idx, g, lv := sq.indices, Gather(charTypes, sq.indices), Gather(levels, sq.indices);
      for k := 0 to |sq.indices|
        invariant |charTypes| == |levels| && SameOff(old(charTypes), charTypes, idx)
        invariant W5Done(g, lv, Gather(charTypes, idx), k)
      {
        ghost var cur := Gather(charTypes, idx);
        assert cur[k] == charTypes[idx[k]];
        if charTypes[sq.indices[k]].EuropeanNumber? {
          ghost var a := FillBackward(k, sq.indices);
          ghost var mid := Gather(charTypes, idx);
          ghost var b := FillForward(k, sq.indices);
          ScansFill(cur, lv, mid, Gather(charTypes, idx), a, k, b);
        }
        W5Round(g, lv, cur, Gather(charTypes, idx), k);
      }
      W5Ends(g, lv, sq, Gather(charTypes, idx));
    }

    // -------------------------------------------------------------- W7

    method ResolveEnIn(sq: RunSequence)
      requires ChainReady(charTypes, levels, sq)
      modifies `charTypes
      ensures ChainDone(W7, old(charTypes), charTypes, levels, sq)
    {
      ghost var idx, g, lv := sq.indices, Gather(charTypes, sq.indices), Gather(levels, sq.indices);
      ghost var r := ApplyRule(W7, g, lv, sq);
      ApplyRuleIsResult(W7, g, lv, sq);
      var k := |sq.indices|;
      while 0 < k
        invariant 0 <= k <= |idx|
        invariant |charTypes| == |levels| && GoingDown(old(charTypes), charTypes, idx, g, r, k)
      {
        k := k - 1;
        var i := sq.indices[k];
        DownReads(old(charTypes), charTypes, idx, g, r, k + 1, k);
        W7Value(g, lv, sq, r, Gather(charTypes, idx), k);
        var firstStrongBc := LeftToRight;
        if charTypes[i].EuropeanNumber? {
          firstStrongBc := FirstStrongBefore(sq.indices, k, sq.sos, false);
        }
        if charTypes[i].EuropeanNumber? && firstStrongBc.LeftToRight? {
          DownWrite(old(charTypes), charTypes, idx, g, r, k, LeftToRight);
          charTypes := charTypes[i := LeftToRight];
        } else {
          DownKeep(old(charTypes), charTypes, idx, g, r, k);
        }
      }
      DownDone(W7, old(charTypes), charTypes, levels, sq, g, r);
    }

    // -------------------------------------------------------------- N1 and N2

    /** `is_prior_context_left` and `is_prior_context_right` */
    method IsPriorDirection(d: Direction, indexIdx: nat, indices: seq<nat>, sot: BidiClass) returns (r: bool)
      requires |charTypes| == |levels| && InBounds(indices, |charTypes|) && indexIdx <= |indices|
      requires Consistent(Gather(charTypes, indices), Gather(levels, indices))
      requires sot.LeftToRight? || sot.RightToLeft?
      ensures r <==> PriorDirection(Gather(charTypes, indices), Gather(levels, indices), sot, indexIdx) == Some(d)
    {
      ghost var g, lv := Gather(charTypes, indices), Gather(levels, indices);
      ghost var found := PriorDirection(g, lv, sot, indexIdx);
      var p := indexIdx;
      while 0 < p
        invariant 0 <= p <= indexIdx && PriorDirection(g, lv, sot, p) == found
      {
        var i := indices[p - 1];
        PriorStep(g, lv, sot, p - 1, charTypes[i], levels[i]);
        if StrongDirection(charTypes[i]) == Some(d) {
          return true;
        }
        if Visible(levels[i]) && !charTypes[i].IsNeutral() {
          return false;
        }
        p := p - 1;
      }
      PriorStart(g, lv, sot, d);
      return sot == d.AsBidiClass();
    }

    method IsFollowingDirection(d: Direction, indexIdx: nat, indices: seq<nat>, eot: BidiClass) returns (r: bool)
      requires |charTypes| == |levels| && InBounds(indices, |charTypes|) && indexIdx < |indices|
      requires Consistent(Gather(charTypes, indices), Gather(levels, indices))
      requires eot.LeftToRight? || eot.RightToLeft?
      ensures r <==>
        FollowingDirection(Gather(charTypes, indices), Gather(levels, indices), eot, indexIdx + 1) == Some(d)
    {
      ghost var g, lv := Gather(charTypes, indices), Gather(levels, indices);
      ghost var found := FollowingDirection(g, lv, eot, indexIdx + 1);
      var n := indexIdx + 1;
      while n < |indices|
        invariant n <= |indices| && FollowingDirection(g, lv, eot, n) == found
      {
        var i := indices[n];
        FollowingStep(g, lv, eot, n, charTypes[i], levels[i]);
        if StrongDirection(charTypes[i]) == Some(d) {
          return true;
        }
        if Visible(levels[i]) && !charTypes[i].IsNeutral() {
          return false;
        }
        n := n + 1;
      }
      FollowingEnd(g, lv, eot, d);
      return eot == d.AsBidiClass();
    }

    /** Whether both sides of a position have direction `d`. */
    method IsBetweenDirections(d: Direction, ridx: nat, sq: RunSequence) returns (r: bool)
      requires ChainReady(charTypes, levels, sq) && ridx < |sq.indices|
      ensures var g, lv := Gather(charTypes, sq.indices), Gather(levels, sq.indices);
              r <==> PriorDirection(g, lv, sq.sos, ridx) == Some(d) == FollowingDirection(g, lv, sq.eos, ridx + 1)
    {
      var prior := IsPriorDirection(d, ridx, sq.indices, sq.sos);
      if !prior {
        return false;
      }
      r := IsFollowingDirection(d, ridx, sq.indices, sq.eos);
    }

    method ResolveNeutralsByContextIn(sq: RunSequence)
      requires ChainReady(charTypes, levels, sq)
      modifies `charTypes
      ensures ChainDone(N1, old(charTypes), charTypes, levels, sq)
    {
      ghost var idx, g, lv := sq.indices, Gather(charTypes, sq.indices), Gather(levels, sq.indices);
      ghost var r := ApplyRule(N1, g, lv, sq);
      ApplyRuleIsResult(N1, g, lv, sq);
      ResultIsN1(g, lv, sq, r);
      ResultConsistent(N1, g, lv, sq, r);
      var k := |sq.indices|;
      while 0 < k
        invariant 0 <= k <= |idx|
        invariant |charTypes| == |levels| && GoingDown(old(charTypes), charTypes, idx, g, r, k)
      {
        k := k - 1;
        var i := sq.indices[k];
        DownReads(old(charTypes), charTypes, idx, g, r, k + 1, k);
        MixedConsistent(g, lv, r, Gather(charTypes, idx), k + 1);
        N1Step(g, lv, sq.sos, sq.eos, r, Gather(charTypes, idx), k);
        var value := charTypes[i];
        if charTypes[i].IsNeutral() {
          var left := IsBetweenDirections(LTR, k, sq);
          if left {
            value := LeftToRight;
          } else {
            var right := IsBetweenDirections(RTL, k, sq);
            if right {
              value := RightToLeft;
            }
          }
        }
        DownWrite(old(charTypes), charTypes, idx, g, r, k, value);
        charTypes := charTypes[i := value];
      }
      DownDone(N1, old(charTypes), charTypes, levels, sq, g, r);
    }

    method ResolveNeutralsByLevelIn(sq: RunSequence)
      requires ChainReady(charTypes, levels, sq)
      modifies `charTypes
      ensures ChainDone(N2, old(charTypes), charTypes, levels, sq)
    {
      ghost var idx, g, lv := sq.indices, Gather(charTypes, sq.indices), Gather(levels, sq.indices);
      ghost var r := ApplyRule(N2, g, lv, sq);
      ApplyRuleIsResult(N2, g, lv, sq);
      var k := |sq.indices|;
      while 0 < k
        invariant 0 <= k <= |idx|
        invariant |charTypes| == |levels| && GoingDown(old(charTypes), charTypes, idx, g, r, k)
      {
        k := k - 1;
        var i := sq.indices[k];
        DownReads(old(charTypes), charTypes, idx, g, r, k + 1, k);
        assert r[k] == RuleAt(N2, g, lv, sq, k);
        if charTypes[i].IsNeutral() {
          DownWrite(old(charTypes), charTypes, idx, g, r, k, LevelClass(levels[i]));
          charTypes := charTypes[i := LevelClass(levels[i])];
        } else {
          DownKeep(old(charTypes), charTypes, idx, g, r, k);
        }
      }
      DownDone(N2, old(charTypes), charTypes, levels, sq, g, r);
    }

    // -------------------------------------------------------------- a rule on all chains

    method ResolveIn(name: RuleName, sq: RunSequence)
      requires ChainReady(charTypes, levels, sq)
      modifies `charTypes
      ensures ChainDone(name, old(charTypes), charTypes, levels, sq)
    {
      match name
      case W1 => ResolveCombiningMarksIn(sq);
      case W2 => ResolveEuropeanNumbersIn(sq);
      case W3 => ResolveArabicLettersIn(sq);
      case W4 => ResolveSeparatorsIn(sq);
      case W5 => ResolveTerminatorsIn(sq);
      case W6 => ResolveEsCsEtIn(sq);
      case W7 => ResolveEnIn(sq);
      case N1 => ResolveNeutralsByContextIn(sq);
      case N2 => ResolveNeutralsByLevelIn(sq);
    }

    /** One rule, on every chain in turn. */
    method ResolveAll(name: RuleName, isoRuns: seq<RunSequence>)
      requires ChainsReady(charTypes, levels, isoRuns) && Cleared(charTypes, levels, Rank(name) - 1)
      modifies `charTypes
      ensures RuleApplied(name, levels, isoRuns, old(charTypes), charTypes)
      ensures ChainsReady(charTypes, levels, isoRuns) && Cleared(charTypes, levels, Rank(name))
      ensures RemovedKept(old(charTypes), levels, charTypes)
    {
      AppliedNone(RuleOf(name), charTypes, levels, isoRuns);
      for s := 0 to |isoRuns|
        invariant |charTypes| == |levels|
        invariant Applied(RuleOf(name), old(charTypes), charTypes, levels, isoRuns, s)
      {
        ghost var before := charTypes;
        StillReady(RuleOf(name), old(charTypes), charTypes, levels, isoRuns, s);
        ResolveIn(name, isoRuns[s]);
        AppliedNext(RuleOf(name), old(charTypes), before, charTypes, levels, isoRuns, s);
      }
      RuleClearsAll(name, old(charTypes), charTypes, levels, isoRuns);
    }

    // -------------------------------------------------------------- N0

    /** Gives class `bc` to the marks that follow the bracket at `pos`, below `limit`. */
    method SetMarksAfter(pos: nat, limit: nat, indices: seq<nat>, bc: BidiClass)
      requires |charTypes| == |levels| == |origCharTypes| && InBounds(indices, |charTypes|) && Ascending(indices)
      requires pos < limit <= |indices|
      modifies `charTypes
      ensures SameOff(old(charTypes), charTypes, indices)
      ensures Marked(Gather(old(charTypes), indices), Gather(origCharTypes, indices), Gather(levels, indices),
                     pos, limit, bc, Gather(charTypes, indices))
    {
      ghost var g, orig, lv := Gather(charTypes, indices), Gather(origCharTypes, indices), Gather(levels, indices);
      var p := pos + 1;
      while p < limit
        invariant pos < p <= limit && SameOff(old(charTypes), charTypes, indices)
        invariant forall j {:trigger orig[j]} :: pos < j < p ==> orig[j].NonspacingMark? || !Visible(lv[j])
        invariant Marked(g, orig, lv, pos, p, bc, Gather(charTypes, indices))
      {
        var i := indices[p];
        ghost var before := Gather(charTypes, indices);
        assert orig[p] == origCharTypes[i] && lv[p] == levels[i];
        if origCharTypes[i].NonspacingMark? {
          GatherUpdate(charTypes, indices, p, bc);
          charTypes := charTypes[i := bc];
        } else if Visible(levels[i]) {
          break;
        }
        MarkedNext(g, orig, lv, pos, p, bc, before, Gather(charTypes, indices));
        p := p + 1;
      }
      MarkedBeyond(g, orig, lv, pos, p, limit, bc, Gather(charTypes, indices));
    }

    method SetBracketPairBc(pair: Pair, indices: seq<nat>, direction: Direction)
      requires |charTypes| == |levels| == |origCharTypes| && InBounds(indices, |charTypes|) && Ascending(indices)
      requires pair.openingPos < pair.closingPos < |indices|
      modifies `charTypes
      ensures SameOff(old(charTypes), charTypes, indices)
      ensures Gather(charTypes, indices) == SetPair(Gather(old(charTypes), indices), Gather(origCharTypes, indices),
                                                    Gather(levels, indices), pair, direction)
    {
      ghost var g, orig, lv := Gather(charTypes, indices), Gather(origCharTypes, indices), Gather(levels, indices);
      var openingPos, closingPos := indices[pair.openingPos], indices[pair.closingPos];
      var bc := direction.AsBidiClass();
      GatherUpdate(charTypes, indices, pair.openingPos, bc);
      charTypes := charTypes[openingPos := bc];
      GatherUpdate(charTypes, indices, pair.closingPos, bc);
      charTypes := charTypes[closingPos := bc];
      ghost var x := Gather(charTypes, indices);
      SetMarksAfter(pair.openingPos, pair.closingPos, indices, bc);
      ghost var y := Gather(charTypes, indices);
      SetMarksAfter(pair.closingPos, |indices|, indices, bc);
      MarkedPair(g, orig, lv, pair, direction, x, y, Gather(charTypes, indices));
    }

    /** Looks between the brackets for the embedding direction, and until it is found for the other one. */
    method ScanPair(pair: Pair, sq: RunSequence, embedding: Direction) returns (same: bool, opposite: bool)
      requires ChainReady(charTypes, levels, sq) && pair.openingPos < pair.closingPos < |sq.indices|
      ensures same <==> StrongInside(Gather(charTypes, sq.indices), pair, embedding)
      ensures !same ==> (opposite <==> StrongInside(Gather(charTypes, sq.indices), pair, embedding.Opposite()))
    {
      ghost var g := Gather(charTypes, sq.indices);
      opposite := false;
      for k := pair.openingPos + 1 to pair.closingPos
        invariant forall j {:trigger g[j]} :: pair.openingPos < j < k ==> StrongDirection(g[j]) != Some(embedding)
        invariant opposite <==>
          exists j {:trigger g[j]} :: pair.openingPos < j < k && StrongDirection(g[j]) == Some(embedding.Opposite())
      {
        var direction := StrongDirection(charTypes[sq.indices[k]]);
        assert direction == StrongDirection(g[k]);
        if direction == Some(embedding) {
          return true, opposite;
        } else if direction == Some(embedding.Opposite()) {
          opposite := true;
        }
      }
      same := false;
    }

    method ResolveOnePair(pair: Pair, sq: RunSequence)
      requires ChainReady(charTypes, levels, sq) && |origCharTypes| == |charTypes|
      requires pair.openingPos < pair.closingPos < |sq.indices|
      modifies `charTypes
      ensures SameOff(old(charTypes), charTypes, sq.indices)
      ensures Gather(charTypes, sq.indices) ==
        ResolvePair(Gather(old(charTypes), sq.indices), Gather(origCharTypes, sq.indices),
                    Gather(levels, sq.indices), sq.sos, DirectionOf(sq.level), pair)
    {
      var embedding := DirectionOf(sq.level);
      var same, opposite := ScanPair(pair, sq, embedding);
      if same {
        SetBracketPairBc(pair, sq.indices, embedding);
      } else if opposite {
        var other := embedding.Opposite();
        var prior := IsPriorDirection(other, pair.openingPos, sq.indices, sq.sos);
        SetBracketPairBc(pair, sq.indices, if prior then other else embedding);
      }
    }

    /** Collects the pairs of one chain.  `ok` is false when the bracket stack overflows. */
    method FindPairs(sq: RunSequence, paragraph: seq<char>, table: BracketTable, stack: BracketStack)
      returns (ok: bool)
      requires stack.Valid() && |charTypes| == |paragraph| && InBounds(sq.indices, |charTypes|)
      modifies stack.Repr()
      ensures stack.Valid() && (ok <==> !ChainOverflows(charTypes, paragraph, table, sq.indices))
      ensures ok ==>
        stack.State() == Bd16(Gather(paragraph, sq.indices), Gather(charTypes, sq.indices), table, |sq.indices|)
    {
      ghost var chars, g := Gather(paragraph, sq.indices), Gather(charTypes, sq.indices);
      stack.Clear();
      for ridx := 0 to |sq.indices|
        invariant stack.Valid() && stack.State() == Bd16(chars, g, table, ridx)
        invariant !Overflows(chars, g, table, ridx)
      {
        var cidx := sq.indices[ridx];
        assert chars[ridx] == paragraph[cidx] && g[ridx] == charTypes[cidx];
        ghost var before := stack.State();
        OverflowsNext(chars, g, table, ridx);
        var bracket := table(paragraph[cidx]);
        if bracket.Some? && charTypes[cidx].OtherNeutral? {
          if bracket.value.kind == Open {
            var pushed := stack.Push(bracket.value.other, ridx);
            if !pushed {
              return false;
            }
          } else {
            var found := stack.SeekMatchingOpenBracket(paragraph[cidx], ridx);
          }
        }
        assert !OverflowsAt(chars, g, table, ridx);
        assert stack.State() == BracketStep(before, BracketAt(chars, g, table, ridx), chars[ridx], ridx);
      }
      return true;
    }

    method ResolvePairsIn(sq: RunSequence, pairs: seq<Pair>)
      requires ChainReady(charTypes, levels, sq) && Consistent(origCharTypes, levels)
      requires PairsVisible(Gather(levels, sq.indices), pairs)
      modifies `charTypes
      ensures SameOff(old(charTypes), charTypes, sq.indices)
      ensures Gather(charTypes, sq.indices) ==
        ResolvePairs(Gather(old(charTypes), sq.indices), Gather(origCharTypes, sq.indices),
                     Gather(levels, sq.indices), sq.sos, DirectionOf(sq.level), pairs)
    {
      ghost var g, lv := Gather(charTypes, sq.indices), Gather(levels, sq.indices);
      ghost var orig := Gather(origCharTypes, sq.indices);
      GatherConsistent(origCharTypes, levels, sq.indices);
      for i := 0 to |pairs|
        invariant ChainReady(charTypes, levels, sq) && SameOff(old(charTypes), charTypes, sq.indices)
        invariant PairsFit(pairs[..i], |g|)
        invariant Gather(charTypes, sq.indices) ==
          ResolvePairs(g, orig, lv, sq.sos, DirectionOf(sq.level), pairs[..i])
      {
        ResolvePairsNext(g, orig, lv, sq.sos, DirectionOf(sq.level), pairs, i);
        ghost var mid := Gather(charTypes, sq.indices);
        ResolveOnePair(pairs[i], sq);
        PairOnlyDirections(mid, orig, lv, sq.sos, DirectionOf(sq.level), pairs[i]);
      }
      assert pairs[..|pairs|] == pairs;
    }

    method ResolveBracketsIn(sq: RunSequence, paragraph: seq<char>, table: BracketTable, stack: BracketStack)
      returns (ok: bool)
      requires ChainReady(charTypes, levels, sq) && Consistent(origCharTypes, levels)
      requires stack.Valid() && |charTypes| == |paragraph|
      modifies `charTypes, stack.Repr()
      ensures stack.Valid() && (ok <==> !ChainOverflows(old(charTypes), paragraph, table, sq.indices))
      ensures SameOff(old(charTypes), charTypes, sq.indices)
      ensures !ok ==> charTypes == old(charTypes)
      ensures ok ==> Gather(charTypes, sq.indices) ==
                     BracketRule(origCharTypes, paragraph, table)(Gather(old(charTypes), sq.indices),
                                                                  Gather(levels, sq.indices), sq)
    {
      ok := FindPairs(sq, paragraph, table, stack);
      if ok {
        PairsOfVisible(Gather(paragraph, sq.indices), Gather(charTypes, sq.indices), Gather(levels, sq.indices), table);
        ResolvePairsIn(sq, SortPairs(stack.pairs));
      }
    }

    /** The chains one after the other, until one overflows the stack. */
    method ResolveBracketChains(isoRuns: seq<RunSequence>, paragraph: seq<char>, table: BracketTable)
      returns (n: nat)
      requires ChainsReady(charTypes, levels, isoRuns) && Consistent(origCharTypes, levels)
      requires |paragraph| == |charTypes|
      modifies `charTypes
      ensures HaltsAt(old(charTypes), paragraph, table, isoRuns, n)
      ensures Applied(BracketRule(origCharTypes, paragraph, table), old(charTypes), charTypes, levels, isoRuns, n)
    {
      ghost var rule := BracketRule(origCharTypes, paragraph, table);
      AppliedNone(rule, charTypes, levels, isoRuns);
      var stack := new BracketStack();
      n := 0;
      while n < |isoRuns|
        invariant n <= |isoRuns| && fresh(stack.Repr()) && stack.Valid() && |charTypes| == |levels|
        invariant Applied(rule, old(charTypes), charTypes, levels, isoRuns, n)
        invariant NoOverflowBefore(old(charTypes), paragraph, table, isoRuns, n)
      {
        ghost var before := charTypes;
        StillReady(rule, old(charTypes), charTypes, levels, isoRuns, n);
        StillOverflows(rule, old(charTypes), charTypes, levels, isoRuns, n, paragraph, table);
        var ok := ResolveBracketsIn(isoRuns[n], paragraph, table, stack);
        if !ok {
          return;
        }
        ChainResolved(origCharTypes, old(charTypes), before, charTypes, levels, isoRuns, n, paragraph, table);
        n := n + 1;
      }
    }

    /** Rule N0.  An overflow ends the rule for all chains that are left. */
    method ResolvePairedBrackets(isoRuns: seq<RunSequence>, paragraph: seq<char>, table: BracketTable)
      returns (ghost n: nat)
      requires ChainsReady(charTypes, levels, isoRuns) && Consistent(origCharTypes, levels)
      requires Cleared(charTypes, levels, 7) && (paragraph == [] || |paragraph| == |charTypes|)
      modifies `charTypes
      ensures ChainsReady(charTypes, levels, isoRuns) && Cleared(charTypes, levels, 8)
      ensures RemovedKept(old(charTypes), levels, charTypes)
      ensures BracketsApplied(origCharTypes, paragraph, table, levels, isoRuns, n, old(charTypes), charTypes)
    {
      n := 0;
      if paragraph != [] {
        n := ResolveBracketChains(isoRuns, paragraph, table);
        BracketsClearAll(old(charTypes), charTypes, origCharTypes, paragraph, table, levels, isoRuns, n);
      }
    }

    // -------------------------------------------------------------- the whole paragraph

    method ResolveWeakTypes(isoRuns: seq<RunSequence>) returns (ghost c: Stages)
      requires ChainsReady(charTypes, levels, isoRuns)
      modifies `charTypes
      ensures ChainsReady(charTypes, levels, isoRuns) && Cleared(charTypes, levels, 7)
      ensures RemovedKept(old(charTypes), levels, charTypes)
      ensures c.x8 == old(charTypes) && c.w7 == charTypes && WeakApplied(levels, isoRuns, c)
    {
      ghost var x8 := charTypes;
      ResolveAll(W1, isoRuns);
      ghost var w1 := charTypes;
      ResolveAll(W2, isoRuns);
      ghost var w2 := charTypes;
      KeptAcross(x8, levels, w1, w2);
      ResolveAll(W3, isoRuns);
      ghost var w3 := charTypes;
      KeptAcross(x8, levels, w2, w3);
      ResolveAll(W4, isoRuns);
      ghost var w4 := charTypes;
      KeptAcross(x8, levels, w3, w4);
      ResolveAll(W5, isoRuns);
      ghost var w5 := charTypes;
      KeptAcross(x8, levels, w4, w5);
      ResolveAll(W6, isoRuns);
      ghost var w6 := charTypes;
      KeptAcross(x8, levels, w5, w6);
      ResolveAll(W7, isoRuns);
      ghost var w7 := charTypes;
      KeptAcross(x8, levels, w6, w7);
      c := Stages(x8, w1, w2, w3, w4, w5, w6, w7, w7, w7, w7);
    }

    /** Rules I1 and I2 */
    method ResolveImplicitLevels()
      requires |charTypes| == |levels|
      modifies `levels
      ensures IsImplicit(old(levels), charTypes, levels)
    {
      for idx := 0 to |levels|
        invariant |levels| == |old(levels)|
        invariant forall k {:trigger levels[k]} :: 0 <= k < |levels| ==>
          levels[k] == if k < idx then ImplicitLevel(old(levels)[k], charTypes[k]) else old(levels)[k]
      {
        var level := levels[idx];
        if Visible(level) {
          match DirectionOf(level) {
            case LTR =>
              match charTypes[idx] {
                case RightToLeft => levels := levels[idx := level + 1];
                case ArabicNumber | EuropeanNumber => levels := levels[idx := level + 2];
                case _ =>
              }
            case RTL =>
              match charTypes[idx] {
                case LeftToRight | ArabicNumber | EuropeanNumber => levels := levels[idx := level + 1];
                case _ =>
              }
          }
        }
      }
    }

    /** Rules X1 to X9: explicit levels and classes, whatever the levels were before. */
    method ResolveExplicit() returns (ok: bool)
      requires 0 <= baseLevel <= 1
      modifies `charTypes, `levels
      ensures ok <==> NeverPanics(baseLevel, old(charTypes))
      ensures ok ==> charTypes == ClassesOf(baseLevel, old(charTypes)) && levels == LevelsOf(baseLevel, old(charTypes))
    {
      ghost var text := charTypes;
      ok := ExplicitEmbeddingLevels();
      if !ok {
        return;
      }
      ExplicitConsistent(baseLevel, text, ClassesOf(baseLevel, text), LevelsOf(baseLevel, text));
      assert charTypes == ClassesOf(baseLevel, text);
      DeleteFormatCharacters();
    }

    /** Rule X10 */
    method IdentifySequences() returns (isoRuns: seq<RunSequence>, ghost upto: nat)
      requires |charTypes| == |levels|
      modifies `runs
      ensures Sequencing(baseLevel, charTypes, levels, runs, upto, isoRuns)
    {
      upto := IdentifyRuns();
      ghost var before := runs;
      isoRuns := IdentifyIsolatingRunSequences();
      TilesSame(charTypes, levels, before, runs, upto);
      forall r {:trigger runs[r]} | 0 <= r < |runs| ensures HasEnds(levels, baseLevel, runs[r]) {
        assert HasEnds(levels, baseLevel, before[r]);
      }
    }

    /** Rules W1 to N2 */
    method ResolveTypes(isoRuns: seq<RunSequence>, paragraph: seq<char>, table: BracketTable)
      returns (ghost c: Stages, ghost n: nat)
      requires ChainsReady(charTypes, levels, isoRuns) && Consistent(origCharTypes, levels)
      requires paragraph == [] || |paragraph| == |charTypes|
      modifies `charTypes
      ensures Consistent(charTypes, levels) && Cleared(charTypes, levels, 10)
      ensures RemovedKept(old(charTypes), levels, charTypes)
      ensures c.x8 == old(charTypes) && c.n2 == charTypes
      ensures TypesResolved(origCharTypes, paragraph, table, levels, isoRuns, n, c)
    {
      c := ResolveWeakTypes(isoRuns);
      n := ResolvePairedBrackets(isoRuns, paragraph, table);
      ghost var n0 := charTypes;
      KeptAcross(c.x8, levels, c.w7, n0);
      ResolveAll(N1, isoRuns);
      ghost var n1 := charTypes;
      KeptAcross(c.x8, levels, n0, n1);
      ResolveAll(N2, isoRuns);
      ghost var n2 := charTypes;
      KeptAcross(c.x8, levels, n1, n2);
      c := c.(n0 := n0, n1 := n1, n2 := n2);
    }

    /** The paragraph level: as the hint says, or by P2 and P3. */
    method SetBaseLevel(hint: ParagraphDirectionHint)
      requires charTypes == origCharTypes
      modifies `baseLevel
      ensures baseLevel == BaseLevel(hint, origCharTypes) && 0 <= baseLevel <= 1
    {
      match hint {
        case ForceLeftToRight => baseLevel := 0;
        case ForceRightToLeft => baseLevel := 1;
        case AutoLeftToRight =>
          var level := ParagraphLevel(charTypes, false, LTR);
          baseLevel := level;
        case AutoRightToLeft =>
          var level := ParagraphLevel(charTypes, false, RTL);
          baseLevel := level;
      }
    }

    /** Rules X10 to I2, on the classes and levels that X1 to X9 have left. */
    method ResolveSequences(paragraph: seq<char>, table: BracketTable) returns (ghost t: Trace)
      requires paragraph == [] || |paragraph| == |origCharTypes|
      requires 0 <= baseLevel <= 1 && NeverPanics(baseLevel, origCharTypes)
      requires charTypes == ClassesOf(baseLevel, origCharTypes) && levels == LevelsOf(baseLevel, origCharTypes)
      modifies `charTypes, `levels, `runs
      ensures Resolves(baseLevel, origCharTypes, paragraph, table, t, charTypes, levels)
      ensures ResolvedText(baseLevel, origCharTypes, charTypes, levels)
    {
      ghost var g, x := charTypes, levels;
      ExplicitConsistent(baseLevel, origCharTypes, g, x);
      var isoRuns;
      ghost var upto;
      isoRuns, upto := IdentifySequences();
      SequencesReady(baseLevel, g, x, runs, upto, isoRuns);
      ghost var c, n := ResolveTypes(isoRuns, paragraph, table);
      ResolveImplicitLevels();
      t := Trace(runs, upto, isoRuns, c, n);
      StagesResolve(baseLevel, origCharTypes, paragraph, table, t, charTypes, levels);
      ImplicitResolves(baseLevel, origCharTypes, g, x, charTypes, levels);
    }

    method Resolve(hint: ParagraphDirectionHint, paragraph: seq<char>, table: BracketTable)
      returns (ok: bool, ghost t: Trace)
      requires paragraph == [] || |paragraph| == |origCharTypes|
      modifies `charTypes, `levels, `baseLevel, `runs
      ensures baseLevel == BaseLevel(hint, origCharTypes)
      ensures ok <==> NeverPanics(baseLevel, origCharTypes)
      ensures ok ==> Resolves(baseLevel, origCharTypes, paragraph, table, t, charTypes, levels)
      ensures ok ==> ResolvedText(baseLevel, origCharTypes, charTypes, levels) && Settled()
    {
      t := Trace([], 0, [], Stages([], [], [], [], [], [], [], [], [], [], []), 0);
      charTypes := origCharTypes;
      SetBaseLevel(hint);
      ok := ResolveExplicit();
      if !ok {
        return;
      }
      t := ResolveSequences(paragraph, table);
      ResolvedSettles(baseLevel, origCharTypes, charTypes, levels);
    }

    method ResolveParagraph(paragraph: seq<char>, hint: ParagraphDirectionHint, classOf: char -> BidiClass,
                            table: BracketTable)
      returns (ok: bool, ghost t: Trace)
      modifies this
      ensures origCharTypes == seq(|paragraph|, k requires 0 <= k < |paragraph| => classOf(paragraph[k]))
      ensures baseLevel == BaseLevel(hint, origCharTypes) && (ok <==> NeverPanics(baseLevel, origCharTypes))
      ensures ok ==> Resolves(baseLevel, origCharTypes, paragraph, table, t, charTypes, levels)
      ensures ok ==> ResolvedText(baseLevel, origCharTypes, charTypes, levels) && Settled()
    {
      origCharTypes := seq(|paragraph|, k requires 0 <= k < |paragraph| => classOf(paragraph[k]));
      ok, t := Resolve(hint, paragraph, table);
    }

    method SetCharTypes(types: seq<BidiClass>, hint: ParagraphDirectionHint)
      returns (ok: bool, ghost t: Trace)
      modifies this
      ensures origCharTypes == types
      ensures baseLevel == BaseLevel(hint, origCharTypes) && (ok <==> NeverPanics(baseLevel, origCharTypes))
      ensures ok ==> Resolves(baseLevel, origCharTypes, [], _ => None, t, charTypes, levels)
      ensures ok ==> ResolvedText(baseLevel, origCharTypes, charTypes, levels) && Settled()
    {
      origCharTypes := types;
      ok, t := Resolve(hint, [], _ => None);
    }

    // -------------------------------------------------------------- lines

    /** Rule L1 on the line `[start..end)`: the levels of its characters. */
    method ResetWhitespaceLevels(start: nat, end: nat) returns (r: seq<int>)
      requires Settled() && start <= end <= |levels|
      ensures r == L1Levels(origCharTypes, levels, baseLevel, start, end)
    {
      var cur := levels;
      for idx := start to end
        invariant ResetUpTo(origCharTypes, levels, baseLevel, start, idx, cur)
      {
        ghost var before := cur;
        match origCharTypes[idx] {
          case SegmentSeparator | ParagraphSeparator =>
            cur := cur[idx := baseLevel];
            cur := ResetContiguousWhitespaceBefore(origCharTypes, baseLevel, start, idx, cur);
          case _ =>
        }
        ResetNext(origCharTypes, levels, baseLevel, start, idx, before, cur);
      }
      ghost var before := cur;
      cur := ResetContiguousWhitespaceBefore(origCharTypes, baseLevel, start, end, cur);
      ResetEnd(origCharTypes, levels, baseLevel, start, end, before, cur);
      r := cur[start..end];
      ghost var whole, lv := cur, L1Levels(origCharTypes, levels, baseLevel, start, end);
      forall i {:trigger r[i]} | 0 <= i < |r| ensures r[i] == lv[i] {
        assert r[i] == whole[start + i];
      }
    }

    /** Rules L1 and L2 on a line.  Against section 3.4 of UAX #9 the visual order is right exactly when
        the sentinel for "no odd level" is not hit. */
    method ReorderLine(start: nat, end: nat) returns (lv: seq<int>, visual: seq<int>)
      requires Settled() && start <= end <= |levels| < DELETED
      ensures lv == L1Levels(origCharTypes, levels, baseLevel, start, end)
      ensures ListsVisible(lv, start, visual) && OrderedBy(start, visual, AfterPasses(lv, LowestOdd(lv)))
      ensures visual == RuleL2(lv, start) <==> !SentinelHit(lv)
      ensures OrderedBy(start, visual, EvenMinimum(lv)) <==> !SentinelHit(lv)
    {
      lv := ResetWhitespaceLevels(start, end);
      LineInRange(origCharTypes, levels, baseLevel, start, end);
      visual := ReverseLevels(start, lv);
    }

    /** `None` stands for the panic on an index outside the line.  Without a panic the runs are those of
        the visual order if and only if every visible character has its level where the code looks for it,
        which is always so on a line that starts the paragraph. */
    method ReorderedRuns(start: nat, end: nat) returns (r: Option<seq<ReorderedRun>>)
      requires Settled() && start <= end <= |levels| < DELETED
      ensures var lv := L1Levels(origCharTypes, levels, baseLevel, start, end);
              && (r.Some? <==> PositionsFit(lv, start))
              && (r.Some? ==> (RunsMeet(lv, start, r.value) <==> LevelsAgree(lv, start)))
              && (r.Some? && NothingFound(lv, start) ==> r.value == [])
              && (start == 0 ==> r.Some? && RunsMeet(lv, start, r.value))
              && (start == 0 ==> (Flatten(r.value) == RuleL2(lv, start) <==> !SentinelHit(lv)))
              && (start == 0 ==> (LogicalStretches(lv, r.value) <==> !SentinelHit(lv)))
    {
      var lv, reordered := ReorderLine(start, end);
      LineInRange(origCharTypes, levels, baseLevel, start, end);
      r := RunsOfLine(start, lv, reordered);
      if r.Some? {
        RunsMeetIff(lv, start, reordered, r.value);
      }
      if start == 0 {
        FirstLineAgrees(lv);
        StretchesIff(lv, reordered, r.value);
      }
    }

    method Runs() returns (r: seq<BidiRun>)
      ensures RunsCover(levels, 0, r, |levels|)
    {
      r := CollectRuns(levels, 0);
    }

    method LineRuns(start: nat, end: nat) returns (r: seq<BidiRun>)
      requires Settled() && start <= end <= |levels|
      ensures RunsCover(L1Levels(origCharTypes, levels, baseLevel, start, end), start, r, end - start)
    {
      var lv := ResetWhitespaceLevels(start, end);
      r := CollectRuns(lv, start);
    }
  }
}
