/** Isolates do what they are for: rules X1 to X8 leave an isolate as they entered it. */
module Isolates {
  import opened Options
  import opened BidiTypes
  import opened LevelStacks
  import opened ParagraphLevels
  import opened ExplicitLevels

  // ---------------------------------------------------------------- inside a valid isolate

  /** `s` is a state inside the isolate that starts in `s1`, with `d` isolates open. */
  ghost predicate InValid(s1: XState, s: XState, d: int)
    requires s1.Nonempty()
  {
    && s.Active?
    && s1.stack <= s.stack
    && s.validIsolate - s1.validIsolate == IsolateCount(s.stack) - IsolateCount(s1.stack)
    && s1.validIsolate <= s.validIsolate
    && d == s.validIsolate - s1.validIsolate + s.overflowIsolate
  }

  lemma {:induction false} CountMonotone(p: seq<StackEntry>, stack: seq<StackEntry>)
    requires p <= stack
    ensures IsolateCount(p) <= IsolateCount(stack)
    decreases |stack|
  {
    if |p| < |stack| {
      CountMonotone(p, stack[..|stack| - 1]);
    } else {
      assert p == stack;
    }
  }

  lemma {:induction false} UnwindAbove(p: seq<StackEntry>, stack: seq<StackEntry>)
    requires p != [] && p <= stack && p[|p| - 1].isolate
    ensures p <= Unwind(stack)
    ensures IsolateCount(stack) == IsolateCount(p) ==> Unwind(stack) == p
    ensures IsolateCount(p) < IsolateCount(stack) ==> |p| < |Unwind(stack)|
    ensures IsolateCount(Unwind(stack)) == IsolateCount(stack)
    decreases |stack|
  {
    var n := |stack| - 1;
    if |p| == |stack| {
      assert p == stack;
    } else if !stack[n].isolate {
      UnwindAbove(p, stack[..n]);
    } else {
      CountMonotone(p, stack[..n]);
    }
  }

  lemma EmbedInside(s1: XState, s: XState, d: nat, level: Option<int>, override: Override)
    requires s1.Nonempty() && InValid(s1, s, d)
    ensures InValid(s1, Embed(s, level, override), d)
  {
  }

  lemma IsolateInside(s1: XState, s: XState, d: nat, level: Option<int>)
    requires s1.Nonempty() && InValid(s1, s, d)
    requires level.Some? && s.overflowIsolate == 0 && s.overflowEmbedding == 0 ==> |s.stack| < MAX_DEPTH
    ensures InValid(s1, Isolate(s, level), d + 1)
  {
  }

  lemma CloseInside(s1: XState, s: XState, d: nat)
    requires s1.Nonempty() && s1.Top().isolate && InValid(s1, s, d) && 0 < d
    ensures InValid(s1, CloseIsolate(s), d - 1)
  {
    if s.overflowIsolate == 0 {
      UnwindAbove(s1.stack, s.stack);
      var u := Unwind(s.stack);
      var v := u[..|u| - 1];
      assert s1.stack <= v;
      assert IsolateCount(v) == IsolateCount(u) - 1;
      assert CloseIsolate(s) == Active(v, 0, 0, s.validIsolate - 1);
    }
  }

  lemma PopInside(s1: XState, s: XState, d: nat)
    requires s1.Nonempty() && s1.Top().isolate && InValid(s1, s, d)
    ensures InValid(s1, PopFormat(s), d)
  {
  }

  function NextDepth(d: int, c: BidiClass): int {
    if c.IsIsoInit() then d + 1 else if c.PopDirectionalIsolate? then d - 1 else d
  }

  lemma StepInside(s1: XState, s: XState, d: nat, c: BidiClass)
    requires s1.Nonempty() && s1.Top().isolate && InValid(s1, s, d)
    requires !c.FirstStrongIsolate? && 0 <= NextDepth(d, c) && !RefusesIsolate(s, c)
    ensures InValid(s1, Step(s, c), NextDepth(d, c))
  {
    var level := s.Top().level;
    match c {
      case RightToLeftEmbedding => EmbedInside(s1, s, d, LeastGreaterOdd(level), NeutralOverride);
      case LeftToRightEmbedding => EmbedInside(s1, s, d, LeastGreaterEven(level), NeutralOverride);
      case RightToLeftOverride => EmbedInside(s1, s, d, LeastGreaterOdd(level), OverrideRTL);
      case LeftToRightOverride => EmbedInside(s1, s, d, LeastGreaterEven(level), OverrideLTR);
      case RightToLeftIsolate => IsolateInside(s1, s, d, LeastGreaterOdd(level));
      case LeftToRightIsolate => IsolateInside(s1, s, d, LeastGreaterEven(level));
      case PopDirectionalIsolate => CloseInside(s1, s, d);
      case PopDirectionalFormat => PopInside(s1, s, d);
      case _ =>
    }
  }

  ghost predicate NoFsi(syms: seq<BidiClass>) {
    forall k {:trigger syms[k]} :: 0 <= k < |syms| ==> !syms[k].FirstStrongIsolate?
  }

  lemma {:induction false} ContentInside(s1: XState, c: seq<BidiClass>)
    requires s1.Nonempty() && s1.Top().isolate && s1.overflowIsolate == 0
    requires NoFsi(c) && 0 <= Net(c) && AcceptsIsolates(s1, c)
    ensures InValid(s1, Run(s1, c), Net(c))
    decreases |c|
  {
    if c != [] {
      var n := |c| - 1;
      ContentInside(s1, c[..n]);
      StepInside(s1, Run(s1, c[..n]), Net(c[..n]), c[n]);
    }
  }

  // ---------------------------------------------------------------- inside an overflow isolate

  lemma OverflowStep(s: XState, c: BidiClass)
    requires s.Nonempty() && 0 < s.overflowIsolate && !c.FirstStrongIsolate?
    ensures Step(s, c) == if c.IsIsoInit() then s.(overflowIsolate := s.overflowIsolate + 1)
                          else if c.PopDirectionalIsolate? then s.(overflowIsolate := s.overflowIsolate - 1)
                          else s
  {
  }

  lemma {:induction false} OverflowContent(s1: XState, c: seq<BidiClass>)
    requires s1.Nonempty() && 0 < s1.overflowIsolate && NoFsi(c) && 0 <= Net(c)
    ensures Run(s1, c) == s1.(overflowIsolate := s1.overflowIsolate + Net(c))
    decreases |c|
  {
    if c != [] {
      var n := |c| - 1;
      OverflowContent(s1, c[..n]);
      OverflowStep(Run(s1, c[..n]), c[n]);
    }
  }

  // ---------------------------------------------------------------- leaving the isolate

  /** A state of balanced content is closed down to the entry of the isolate. */
  lemma ValidCloses(s: XState, s1: XState, e: StackEntry, t: XState)
    requires s.Nonempty() && e.isolate && s1 == Active(s.stack + [e], 0, 0, s.validIsolate + 1)
    requires InValid(s1, t, 0)
    ensures t.Nonempty() && t.overflowIsolate == 0 && t.validIsolate == s.validIsolate + 1
    ensures Unwind(t.stack) == s1.stack
  {
    UnwindAbove(s1.stack, t.stack);
  }

  lemma ClosesTo(s: XState, e: StackEntry, t: XState)
    requires s.Nonempty() && s.overflowIsolate == 0 && s.overflowEmbedding == 0
    requires t.Nonempty() && t.overflowIsolate == 0 && t.validIsolate == s.validIsolate + 1
    requires Unwind(t.stack) == s.stack + [e]
    ensures Step(t, PopDirectionalIsolate) == s
  {
    assert (s.stack + [e])[..|s.stack|] == s.stack;
  }

  lemma ValidRestores(s: XState, s1: XState, e: StackEntry, c: seq<BidiClass>)
    requires s.Nonempty() && s.overflowIsolate == 0 && s.overflowEmbedding == 0 && e.isolate
    requires s1 == Active(s.stack + [e], 0, 0, s.validIsolate + 1)
    requires NoFsi(c) && Balanced(c) && AcceptsIsolates(s1, c)
    ensures Step(Run(s1, c), PopDirectionalIsolate) == s
  {
    ContentInside(s1, c);
    ValidCloses(s, s1, e, Run(s1, c));
    ClosesTo(s, e, Run(s1, c));
  }

  lemma OverflowRestores(s: XState, c: seq<BidiClass>)
    requires s.Nonempty() && NoFsi(c) && Balanced(c)
    ensures Step(Run(s.(overflowIsolate := s.overflowIsolate + 1), c), PopDirectionalIsolate) == s
  {
    OverflowContent(s.(overflowIsolate := s.overflowIsolate + 1), c);
  }

  lemma InitiatorStep(s: XState, init: BidiClass)
    requires s.Nonempty() && (init.RightToLeftIsolate? || init.LeftToRightIsolate?)
    requires !RefusesIsolate(s, init)
    ensures match Asked(s, init)
            case None => Step(s, init) == s.(overflowIsolate := s.overflowIsolate + 1)
            case Some(level) =>
              && s.overflowIsolate == s.overflowEmbedding == 0
              && Step(s, init) == Active(s.stack + [StackEntry(level, NeutralOverride, true)], 0, 0,
                                         s.validIsolate + 1)
  {
  }

  /** Whatever stands between an initiator and its matching PDI, the stack and the three counters
      after the PDI are those before the initiator, unless a push of an isolate was refused. */
  lemma IsolateRestoresState(s: XState, init: BidiClass, c: seq<BidiClass>)
    requires s.Nonempty() && (init.RightToLeftIsolate? || init.LeftToRightIsolate?)
    requires NoFsi(c) && Balanced(c)
    requires !RefusesIsolate(s, init) && AcceptsIsolates(Step(s, init), c)
    ensures Step(Run(Step(s, init), c), PopDirectionalIsolate) == s
  {
    InitiatorStep(s, init);
    if Asked(s, init).Some? {
      ValidRestores(s, Step(s, init), StackEntry(Asked(s, init).value, NeutralOverride, true), c);
    } else {
      OverflowRestores(s, c);
    }
  }

  /** For a state that counts what it stacks the condition is exact: a refused isolate leaves an isolate
      in excess for good, so the state before the initiator does not come back. */
  lemma IsolateRestoresIff(base: int, s: XState, init: BidiClass, c: seq<BidiClass>)
    requires Safe(base, s) && Exact(s) && (init.RightToLeftIsolate? || init.LeftToRightIsolate?)
    requires NoFsi(c) && Balanced(c)
    ensures Step(Run(Step(s, init), c), PopDirectionalIsolate) == s
      <==> !RefusesIsolate(s, init) && AcceptsIsolates(Step(s, init), c)
  {
    if !RefusesIsolate(s, init) && AcceptsIsolates(Step(s, init), c) {
      IsolateRestoresState(s, init, c);
    } else if Step(Run(Step(s, init), c), PopDirectionalIsolate).Active? {
      var s1 := Step(s, init);
      var t := Run(s1, c);
      ActiveBefore(s1, c);
      StepSafe(base, s, init);
      StepExcess(base, s, init);
      RunSafe(base, s1, c);
      RunExcess(base, s1, c);
      StepExcess(base, t, PopDirectionalIsolate);
    }
  }

  lemma {:induction false} ActiveBefore(s: XState, syms: seq<BidiClass>)
    requires Run(s, syms).Active?
    ensures s.Active?
    decreases |syms|
  {
    if syms != [] {
      ActiveBefore(s, syms[..|syms| - 1]);
    }
  }
}
