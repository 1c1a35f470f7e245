/** What stands in an isolate that is still open: matching by BD9, and the levels of rules X1 to X8. */
module OpenIsolates {
  import opened BidiTypes
  import opened ParagraphLevels
  import opened ExplicitLevels
  import opened Isolates
  import opened ExplicitText
  import opened Resolution

  // ---------------------------------------------------------------- the texts

  /** The isolate that starts at `i` gets an entry on the stack; otherwise it overflows. */
  predicate Stacked(base: int, text: seq<BidiClass>, i: nat)
    requires i < |text|
  {
    StateAt(base, text, i).Nonempty() && Asked(StateAt(base, text, i), SymbolAt(text, i)).Some?
  }

  /** A paragraph without overrides, whose separator, if it has one, ends it. */
  ghost predicate PlainControls(text: seq<BidiClass>) {
    && (forall k {:trigger text[k]} :: 0 <= k < |text| ==>
          !text[k].RightToLeftOverride? && !text[k].LeftToRightOverride?)
    && (forall k {:trigger text[k]} :: 0 <= k < |text| - 1 ==> !text[k].ParagraphSeparator?)
  }

  ghost predicate NeutralStack(s: XState) {
    s.Active? ==> forall k {:trigger s.stack[k]} :: 0 <= k < |s.stack| ==> s.stack[k].override.NeutralOverride?
  }

  lemma StepNeutral(s: XState, c: BidiClass)
    requires NeutralStack(s) && !c.RightToLeftOverride? && !c.LeftToRightOverride?
    ensures NeutralStack(Step(s, c))
  {
  }

  lemma {:induction false} StateNeutral(base: int, text: seq<BidiClass>, k: nat)
    requires PlainControls(text) && k <= |text|
    ensures NeutralStack(StateAt(base, text, k))
    decreases k
  {
    if k == 0 {
      assert Symbols(text)[..0] == [];
    } else {
      StateNeutral(base, text, k - 1);
      StateStep(base, text, k - 1);
      assert !text[k - 1].RightToLeftOverride? && !text[k - 1].LeftToRightOverride?;
      StepNeutral(StateAt(base, text, k - 1), SymbolAt(text, k - 1));
    }
  }

  /** Without overrides every character keeps its class. */
  lemma ClassesKept(base: int, text: seq<BidiClass>)
    requires PlainControls(text)
    ensures ClassesOf(base, text) == text
  {
    var g := ClassesOf(base, text);
    forall k {:trigger g[k]} | 0 <= k < |text| ensures g[k] == text[k] {
      StateNeutral(base, text, k);
      StateNeutral(base, text, k + 1);
      assert g[k] == ExplicitClass(base, text, k);
    }
  }

  // ---------------------------------------------------------------- matching

  lemma {:induction false} NetAdds(text: seq<BidiClass>, a: nat, b: nat, c: nat)
    requires a <= b <= c <= |text| && 0 <= Net(text[a..b]) && 0 <= Net(text[b..c])
    ensures Net(text[a..c]) == Net(text[a..b]) + Net(text[b..c])
    decreases c
  {
    if b < c {
      NetStep(text, a, c - 1);
      NetStep(text, b, c - 1);
      NetAdds(text, a, b, c - 1);
    } else {
      assert text[b..c] == [];
    }
  }

  lemma {:induction false} RemovedNet(text: seq<BidiClass>, a: nat, b: nat)
    requires a <= b <= |text|
    requires forall k {:trigger text[k]} :: a <= k < b ==> text[k].IsRemovedByX9()
    ensures Net(text[a..b]) == 0
    decreases b
  {
    if a < b {
      NetStep(text, a, b - 1);
      RemovedNet(text, a, b - 1);
      assert text[b - 1].IsRemovedByX9();
    }
  }

  ghost predicate HasMatch(text: seq<BidiClass>, i: int) {
    exists j {:trigger Matches(text, i, j)} :: Matches(text, i, j)
  }

  /** An initiator inside a matched isolate is matched too. */
  lemma InnerHasMatch(text: seq<BidiClass>, i: nat, j: nat, k: nat)
    requires Matches(text, i, j) && i < k < j && text[k].IsIsoInit()
    ensures HasMatch(text, k) && !Matches(text, k, j)
  {
    NotYetClosed(text, i, j, k);
    NotYetClosed(text, i, j, k + 1);
    NetStep(text, i + 1, k);
    NetClosed(text, k, j);
    if 0 <= Net(text[k + 1..j]) {
      NetAdds(text, i + 1, k + 1, j);
    }
  }

  lemma NotYetClosed(text: seq<BidiClass>, i: nat, j: nat, k: nat)
    requires Matches(text, i, j) && i < k <= j
    ensures 0 <= Net(text[i + 1..k])
  {
    NetClosed(text, i, k);
    forall q {:trigger Matches(text, i, q)} | q < k ensures !Matches(text, i, q) {
      NotClosed(text, i, j, q);
    }
  }

  lemma MatchOpens(text: seq<BidiClass>, i: nat, j: nat, k: nat)
    requires Matches(text, i, j) && i < k < j
    ensures Opens(text, i, k)
  {
    forall q {:trigger Matches(text, i, q)} | i < q <= k ensures !Matches(text, i, q) {
      NotClosed(text, i, j, q);
    }
  }

  // ---------------------------------------------------------------- levels inside an isolate

  /** The state after an initiator that is stacked. */
  lemma IsolateOpens(base: int, text: seq<BidiClass>, i: nat, s: XState, s1: XState)
    requires 0 <= base <= 1 && Accepted(base, text) && i < |text| && text[i].IsIsoInit()
    requires s == StateAt(base, text, i) && s1 == StateAt(base, text, i + 1)
    ensures s.Nonempty() && s1.Nonempty()
    ensures if Stacked(base, text, i)
            then s1.overflowIsolate == 0 && |s1.stack| == |s.stack| + 1 && s.stack == s1.stack[..|s.stack|]
                 && s1.Top().isolate
            else s1.overflowIsolate > 0 && s1.stack == s.stack
  {
    AcceptedFrom(base, text, i, i + 1);
    StateSafe(base, text, i);
    var syms := Symbols(text);
    assert syms[i..i + 1] == [syms[i]] && syms[i..i + 1][..0] == [];
    assert !RefusesIsolate(s, syms[i]);
    StateStep(base, text, i);
    InitiatorStep(s, syms[i]);
  }

  /** Before its PDI the entry of a stacked isolate stays on the stack, and the stack does not change in
      an isolate that overflows. */
  lemma InsideAbove(base: int, text: seq<BidiClass>, i: nat, k: nat)
    requires 0 <= base <= 1 && Accepted(base, text) && i < k <= |text| && text[i].IsIsoInit()
    requires 0 <= Net(text[i + 1..k])
    ensures StateAt(base, text, i + 1).Nonempty() && StateAt(base, text, k).Nonempty()
    ensures if Stacked(base, text, i) then StateAt(base, text, i + 1).stack <= StateAt(base, text, k).stack
            else StateAt(base, text, i + 1).stack == StateAt(base, text, k).stack
  {
    var s1 := StateAt(base, text, i + 1);
    IsolateOpens(base, text, i, StateAt(base, text, i), s1);
    AcceptedFrom(base, text, i + 1, k);
    SymbolsNet(text, i + 1, k);
    StateFrom(base, text, i + 1, k);
    if Stacked(base, text, i) {
      ContentInside(s1, Symbols(text)[i + 1..k]);
    } else {
      OverflowContent(s1, Symbols(text)[i + 1..k]);
    }
  }

  lemma AboveIsHigher(base: int, s: XState, s1: XState, t: XState)
    requires s.Nonempty() && s1.Nonempty() && t.Nonempty() && Safe(base, t)
    requires |s1.stack| == |s.stack| + 1 && s.stack == s1.stack[..|s.stack|] && s1.stack <= t.stack
    ensures s.Top().level < t.Top().level
  {
    var n := |s.stack| - 1;
    assert s.stack[n] == s1.stack[n] == t.stack[n];
  }

  lemma OpenNet(text: seq<BidiClass>, i: nat, k: nat)
    requires Opens(text, i, k)
    ensures 0 <= Net(text[i + 1..k]) && 0 <= Net(text[i + 1..k + 1])
  {
    NetClosed(text, i, k);
    NetClosed(text, i, k + 1);
  }

  lemma LevelAtTop(base: int, text: seq<BidiClass>, x: seq<int>, k: nat, s: XState)
    requires x == LevelsOf(base, text) && k < |text| && !text[k].IsRemovedByX9() && !text[k].ParagraphSeparator?
    requires s == StateFor(base, text, k) && s.Nonempty()
    ensures x[k] == s.Top().level
  {
    assert x[k] == ExplicitLevel(base, text, k);
  }

  /** Until it is closed, everything visible after an initiator has a higher level, or its own level if it
      overflows. */
  lemma OpenLevel(base: int, text: seq<BidiClass>, x: seq<int>, i: nat, k: nat)
    requires 0 <= base <= 1 && Accepted(base, text) && x == LevelsOf(base, text)
    requires Opens(text, i, k) && !text[k].IsRemovedByX9() && !text[k].ParagraphSeparator?
    ensures if Stacked(base, text, i) then x[i] < x[k] else x[i] == x[k]
  {
    var m := if text[k].PopDirectionalIsolate? then k + 1 else k;
    var s, s1, t := StateAt(base, text, i), StateAt(base, text, i + 1), StateAt(base, text, m);
    OpenNet(text, i, k);
    IsolateOpens(base, text, i, s, s1);
    InsideAbove(base, text, i, m);
    LevelAtTop(base, text, x, i, s);
    LevelAtTop(base, text, x, k, t);
    if Stacked(base, text, i) {
      StateSafe(base, text, m);
      AboveIsHigher(base, s, s1, t);
    } else {
      SameTop(s, t);
    }
  }

  lemma SameTop(s: XState, t: XState)
    requires s.Nonempty() && t.Nonempty() && s.stack == t.stack
    ensures s.Top().level == t.Top().level
  {
  }

  /** What is open after the initiator at `i` has a higher level. */
  ghost predicate Lifts(text: seq<BidiClass>, x: seq<int>, i: int)
    requires |x| == |text|
  {
    forall k {:trigger Opens(text, i, k)} :: Opens(text, i, k) && Visible(x[k]) && !text[k].ParagraphSeparator? ==>
      x[i] < x[k]
  }

  /** What is open after the initiator at `i` has its level. */
  ghost predicate IsFlat(text: seq<BidiClass>, x: seq<int>, i: int)
    requires |x| == |text|
  {
    forall k {:trigger Opens(text, i, k)} :: Opens(text, i, k) && Visible(x[k]) && !text[k].ParagraphSeparator? ==>
      x[i] == x[k]
  }

  /** What is known of the levels of a text about its isolates. */
  ghost predicate IsolateLevels(text: seq<BidiClass>, x: seq<int>) {
    && |x| == |text|
    && (forall i, j {:trigger Matches(text, i, j)} :: Matches(text, i, j) ==> x[i] == x[j])
    && (forall i {:trigger text[i]} :: 0 <= i < |text| && text[i].IsIsoInit() ==>
          Lifts(text, x, i) || IsFlat(text, x, i))
    && (forall k {:trigger x[k]} :: 0 <= k < |x| ==> (Visible(x[k]) <==> !text[k].IsRemovedByX9()))
    && (forall k {:trigger text[k]} :: 0 <= k < |text| - 1 ==> !text[k].ParagraphSeparator?)
  }

  lemma InitiatorLevels(base: int, text: seq<BidiClass>, x: seq<int>, i: nat)
    requires 0 <= base <= 1 && Accepted(base, text) && x == LevelsOf(base, text) && i < |text|
    requires forall k {:trigger x[k]} :: 0 <= k < |x| ==> (Visible(x[k]) <==> !text[k].IsRemovedByX9())
    ensures if Stacked(base, text, i) then Lifts(text, x, i) else IsFlat(text, x, i)
  {
    forall k {:trigger Opens(text, i, k)} |
      Opens(text, i, k) && Visible(x[k]) && !text[k].ParagraphSeparator?
      ensures if Stacked(base, text, i) then x[i] < x[k] else x[i] == x[k]
    {
      OpenLevel(base, text, x, i, k);
    }
  }

  lemma TextLevels(base: int, text: seq<BidiClass>)
    requires 0 <= base <= 1 && Accepted(base, text) && PlainControls(text)
    ensures IsolateLevels(text, LevelsOf(base, text))
  {
    var x := LevelsOf(base, text);
    AcceptedNeverPanics(base, text);
    ExplicitConsistent(base, text, ClassesOf(base, text), x);
    forall i, j {:trigger Matches(text, i, j)} | Matches(text, i, j) ensures x[i] == x[j] {
      AcceptedPrefix(base, text, j);
      IsolateEndsAgree(base, text, i, j);
    }
    forall i {:trigger text[i]} | 0 <= i < |text| && text[i].IsIsoInit()
      ensures Lifts(text, x, i) || IsFlat(text, x, i)
    {
      InitiatorLevels(base, text, x, i);
    }
  }

  // ---------------------------------------------------------------- isolates that do no harm

  /** No isolate after `i` is matched. */
  ghost predicate NoPairAfter(text: seq<BidiClass>, i: int) {
    forall h, j {:trigger Matches(text, h, j)} :: i < h ==> !Matches(text, h, j)
  }

  /** The isolate that starts at `i` contains nothing visible, or it is never closed and no isolate after
      it is. */
  ghost predicate IsHarmless(text: seq<BidiClass>, i: int) {
    && (forall j, k {:trigger Matches(text, i, j), text[k]} :: Matches(text, i, j) && i < k < j ==>
          text[k].IsRemovedByX9())
    && (HasMatch(text, i) || NoPairAfter(text, i))
  }

  /** The levels of isolates, where those that do not lift are harmless. */
  ghost predicate IsolatesLift(text: seq<BidiClass>, x: seq<int>) {
    && IsolateLevels(text, x)
    && forall i {:trigger text[i]} :: 0 <= i < |text| && text[i].IsIsoInit() ==>
         Lifts(text, x, i) || IsHarmless(text, i)
  }

  lemma InsideHigher(text: seq<BidiClass>, x: seq<int>, i: nat, j: nat, k: nat)
    requires IsolatesLift(text, x) && Matches(text, i, j) && i < k < j && Visible(x[k])
    ensures x[i] < x[k]
  {
    MatchOpens(text, i, j, k);
    assert text[i].IsIsoInit() && !text[k].ParagraphSeparator?;
  }

  /** An initiator is not open at a later one of its level that is matched. */
  lemma NotOpenAt(text: seq<BidiClass>, x: seq<int>, h: nat, i: nat, j: nat)
    requires IsolatesLift(text, x) && Matches(text, i, j) && h < i && text[h].IsIsoInit() && x[h] == x[i]
    ensures !Opens(text, h, i)
  {
    assert Visible(x[i]) && text[i].IsIsoInit();
    if HasMatch(text, h) {
      var k :| Matches(text, h, k);
      if i < k {
        InsideHigher(text, x, h, k, i);
      }
    }
  }
}
