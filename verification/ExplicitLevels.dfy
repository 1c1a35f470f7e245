/** Rules X1 to X8, `explicit_embedding_levels` in `bidi/src/lib.rs`, as a run of a state machine. */
module ExplicitLevels {
  import opened Options
  import opened BidiTypes
  import opened LevelStacks

  /** The stack and the three counters.  `Panic` is an index out of bounds on an empty stack. */
  datatype XState =
    | Panic
    | Active(stack: seq<StackEntry>, overflowIsolate: nat, overflowEmbedding: nat, validIsolate: nat)
  {
    predicate Nonempty() {
      Active? && stack != []
    }

    function Top(): StackEntry
      requires Nonempty()
    {
      stack[|stack| - 1]
    }
  }

  function Initial(base: int): XState {
    Active([StackEntry(base, NeutralOverride, false)], 0, 0, 0)
  }

  // ---------------------------------------------------------------- one step

  /** X2 to X5 */
  function Embed(s: XState, level: Option<int>, override: Override): XState
    requires s.Active?
  {
    if level.Some? && s.overflowIsolate == 0 && s.overflowEmbedding == 0 then
      s.(stack := PushedOn(s.stack, StackEntry(level.value, override, false)))
    else if s.overflowIsolate == 0 then s.(overflowEmbedding := s.overflowEmbedding + 1)
    else s
  }

  /** X5a and X5b */
  function Isolate(s: XState, level: Option<int>): XState
    requires s.Active?
  {
    if level.Some? && s.overflowIsolate == 0 && s.overflowEmbedding == 0 then
      s.(validIsolate := s.validIsolate + 1,
         stack := PushedOn(s.stack, StackEntry(level.value, NeutralOverride, true)))
    else s.(overflowIsolate := s.overflowIsolate + 1)
  }

  /** The stack from its last isolate entry down, or nothing if it has none. */
  function Unwind(stack: seq<StackEntry>): (u: seq<StackEntry>)
    ensures u <= stack
    ensures u != [] ==> u[|u| - 1].isolate
  {
    if stack == [] || stack[|stack| - 1].isolate then stack else Unwind(stack[..|stack| - 1])
  }

  /** X6a */
  function CloseIsolate(s: XState): XState
    requires s.Active?
  {
    if s.overflowIsolate > 0 then s.(overflowIsolate := s.overflowIsolate - 1)
    else if s.validIsolate == 0 then s
    else
      var u := Unwind(s.stack);
      if |u| < 2 then Panic else Active(u[..|u| - 1], 0, 0, s.validIsolate - 1)
  }

  /** X7 */
  function PopFormat(s: XState): XState
    requires s.Nonempty()
  {
    if s.overflowIsolate > 0 then s
    else if s.overflowEmbedding > 0 then s.(overflowEmbedding := s.overflowEmbedding - 1)
    else if !s.Top().isolate && |s.stack| >= 2 then s.(stack := s.stack[..|s.stack| - 1])
    else s
  }

  /** X2 to X7 for a character whose class is not FSI. */
  function Step(s: XState, c: BidiClass): XState {
    if !s.Nonempty() then Panic else
      var level := s.Top().level;
      match c
      case RightToLeftEmbedding => Embed(s, LeastGreaterOdd(level), NeutralOverride)
      case LeftToRightEmbedding => Embed(s, LeastGreaterEven(level), NeutralOverride)
      case RightToLeftOverride => Embed(s, LeastGreaterOdd(level), OverrideRTL)
      case LeftToRightOverride => Embed(s, LeastGreaterEven(level), OverrideLTR)
      case RightToLeftIsolate => Isolate(s, LeastGreaterOdd(level))
      case LeftToRightIsolate => Isolate(s, LeastGreaterEven(level))
      case PopDirectionalIsolate => CloseIsolate(s)
      case PopDirectionalFormat => PopFormat(s)
      case _ => s
  }

  function Run(s: XState, syms: seq<BidiClass>): XState {
    if syms == [] then s else Step(Run(s, syms[..|syms| - 1]), syms[|syms| - 1])
  }

  lemma RunStep(s: XState, syms: seq<BidiClass>, k: nat)
    requires k < |syms|
    ensures Run(s, syms[..k + 1]) == Step(Run(s, syms[..k]), syms[k])
  {
    assert syms[..k + 1][..k] == syms[..k];
  }

  lemma RunAppend(s: XState, syms: seq<BidiClass>, c: BidiClass, t: XState, t': XState)
    requires Run(s, syms) == t && Step(t, c) == t'
    ensures Run(s, syms + [c]) == t'
  {
  }

  lemma {:induction false} RunConcat(s: XState, a: seq<BidiClass>, b: seq<BidiClass>)
    ensures Run(s, a + b) == Run(Run(s, a), b)
    decreases |b|
  {
    if b == [] {
      assert a + b == a;
    } else {
      var n := |b| - 1;
      var m := Run(s, a);
      var t := Run(m, b[..n]);
      RunConcat(s, a, b[..n]);
      RunAppend(s, a + b[..n], b[n], t, Step(t, b[n]));
      RunAppend(m, b[..n], b[n], t, Step(t, b[n]));
      assert a + b == a + b[..n] + [b[n]] && b == b[..n] + [b[n]];
    }
  }

  // ---------------------------------------------------------------- what every step keeps

  function IsolateCount(stack: seq<StackEntry>): nat {
    if stack == [] then 0
    else IsolateCount(stack[..|stack| - 1]) + if stack[|stack| - 1].isolate then 1 else 0
  }

  ghost predicate Increasing(stack: seq<StackEntry>) {
    && (forall k {:trigger stack[k]} :: 0 <= k < |stack| ==> 0 <= stack[k].level <= MAX_DEPTH)
    && (forall k, l {:trigger stack[k], stack[l]} :: 0 <= k < l < |stack| ==> stack[k].level < stack[l].level)
  }

  /** Levels strictly increase from the base level and never exceed 125; at least as many isolates
      are counted as stacked. */
  ghost predicate Safe(base: int, s: XState) {
    s.Active? ==>
      && 0 < |s.stack| <= MAX_DEPTH
      && s.stack[0] == StackEntry(base, NeutralOverride, false)
      && Increasing(s.stack)
      && IsolateCount(s.stack) <= s.validIsolate
  }

  lemma PushedCount(stack: seq<StackEntry>, e: StackEntry)
    ensures IsolateCount(stack + [e]) == IsolateCount(stack) + if e.isolate then 1 else 0
  {
  }

  lemma PushSafe(base: int, s: XState, level: int, override: Override, isolate: bool)
    requires Safe(base, s) && s.Active? && s.Top().level < level <= MAX_DEPTH
    ensures var t := PushedOn(s.stack, StackEntry(level, override, isolate));
            && 0 < |t| <= MAX_DEPTH && t[0] == s.stack[0] && Increasing(t)
            && IsolateCount(t) <= IsolateCount(s.stack) + if isolate then 1 else 0
  {
  }

  lemma PopSafe(stack: seq<StackEntry>)
    requires Increasing(stack) && stack != []
    ensures Increasing(stack[..|stack| - 1])
    ensures IsolateCount(stack) == IsolateCount(stack[..|stack| - 1]) + if stack[|stack| - 1].isolate then 1 else 0
  {
  }

  lemma {:induction false} UnwindCount(stack: seq<StackEntry>)
    requires Increasing(stack)
    ensures Increasing(Unwind(stack)) && IsolateCount(Unwind(stack)) == IsolateCount(stack)
    ensures Unwind(stack) == [] <==> IsolateCount(stack) == 0
  {
    if stack != [] {
      PopSafe(stack);
      if !stack[|stack| - 1].isolate {
        UnwindCount(stack[..|stack| - 1]);
      }
    }
  }

  lemma PoppedSafe(base: int, stack: seq<StackEntry>, u: seq<StackEntry>)
    requires stack != [] && stack[0] == StackEntry(base, NeutralOverride, false)
    requires u <= stack && Increasing(u) && u != [] && u[|u| - 1].isolate
    ensures |u| >= 2 && u[0] == stack[0]
    ensures Increasing(u[..|u| - 1]) && IsolateCount(u[..|u| - 1]) == IsolateCount(u) - 1
  {
  }

  lemma CloseSafe(base: int, s: XState)
    requires Safe(base, s) && s.Active?
    ensures Safe(base, CloseIsolate(s))
    ensures CloseIsolate(s).Panic? <==>
      s.overflowIsolate == 0 && s.validIsolate > 0 && IsolateCount(s.stack) == 0
    ensures s.overflowIsolate == 0 && s.validIsolate > 0 && CloseIsolate(s).Active? ==>
      IsolateCount(CloseIsolate(s).stack) == IsolateCount(s.stack) - 1
  {
    if s.overflowIsolate == 0 && s.validIsolate > 0 {
      UnwindCount(s.stack);
      if Unwind(s.stack) != [] {
        PoppedSafe(base, s.stack, Unwind(s.stack));
      }
    }
  }

  predicate NextLevel(s: XState, level: Option<int>)
    requires s.Nonempty()
  {
    level.Some? ==> s.Top().level < level.value <= MAX_DEPTH
  }

  lemma EmbedSafe(base: int, s: XState, level: Option<int>, override: Override)
    requires Safe(base, s) && s.Active? && NextLevel(s, level)
    ensures Safe(base, Embed(s, level, override))
    ensures IsolateCount(Embed(s, level, override).stack) == IsolateCount(s.stack)
  {
  }

  lemma IsolateSafe(base: int, s: XState, level: Option<int>)
    requires Safe(base, s) && s.Active? && NextLevel(s, level)
    ensures Safe(base, Isolate(s, level))
    ensures var s' := Isolate(s, level);
            IsolateCount(s'.stack) - s'.validIsolate ==
            IsolateCount(s.stack) - s.validIsolate -
            if s'.validIsolate > s.validIsolate && |s.stack| == MAX_DEPTH then 1 else 0
  {
    if level.Some? {
      PushSafe(base, s, level.value, NeutralOverride, true);
      PushedCount(s.stack, StackEntry(level.value, NeutralOverride, true));
    }
  }

  lemma PopFormatSafe(base: int, s: XState)
    requires Safe(base, s) && s.Active?
    ensures Safe(base, PopFormat(s)) && PopFormat(s).Active?
    ensures IsolateCount(PopFormat(s).stack) == IsolateCount(s.stack)
  {
  }

  lemma NextLevels(base: int, s: XState)
    requires Safe(base, s) && s.Active?
    ensures NextLevel(s, LeastGreaterOdd(s.Top().level)) && NextLevel(s, LeastGreaterEven(s.Top().level))
  {
  }

  /** Every step keeps the stack safe. */
  lemma StepSafe(base: int, s: XState, c: BidiClass)
    requires Safe(base, s)
    ensures Safe(base, Step(s, c))
  {
    if s.Active? {
      NextLevels(base, s);
      var level := s.Top().level;
      match c {
        case RightToLeftEmbedding => EmbedSafe(base, s, LeastGreaterOdd(level), NeutralOverride);
        case LeftToRightEmbedding => EmbedSafe(base, s, LeastGreaterEven(level), NeutralOverride);
        case RightToLeftOverride => EmbedSafe(base, s, LeastGreaterOdd(level), OverrideRTL);
        case LeftToRightOverride => EmbedSafe(base, s, LeastGreaterEven(level), OverrideLTR);
        case RightToLeftIsolate => IsolateSafe(base, s, LeastGreaterOdd(level));
        case LeftToRightIsolate => IsolateSafe(base, s, LeastGreaterEven(level));
        case PopDirectionalIsolate => CloseSafe(base, s);
        case PopDirectionalFormat => PopFormatSafe(base, s);
        case _ =>
      }
    }
  }

  /** Stack safety over every text. */
  lemma {:induction false} RunSafe(base: int, s: XState, syms: seq<BidiClass>)
    requires Safe(base, s)
    ensures Safe(base, Run(s, syms))
    decreases |syms|
  {
    if syms != [] {
      RunSafe(base, s, syms[..|syms| - 1]);
      StepSafe(base, Run(s, syms[..|syms| - 1]), syms[|syms| - 1]);
    }
  }

  // ---------------------------------------------------------------- refused pushes

  predicate AsksOdd(c: BidiClass) {
    c.RightToLeftEmbedding? || c.RightToLeftOverride? || c.RightToLeftIsolate?
  }

  predicate AsksEven(c: BidiClass) {
    c.LeftToRightEmbedding? || c.LeftToRightOverride? || c.LeftToRightIsolate?
  }

  /** The initiators of rules X2 to X5. */
  predicate IsEmbedding(c: BidiClass) {
    (AsksOdd(c) || AsksEven(c)) && !c.IsIsoInit()
  }

  /** The level that the character asks the stack to push, if it does. */
  function Asked(s: XState, c: BidiClass): Option<int>
    requires s.Nonempty()
  {
    if s.overflowIsolate != 0 || s.overflowEmbedding != 0 then None
    else if AsksOdd(c) then LeastGreaterOdd(s.Top().level)
    else if AsksEven(c) then LeastGreaterEven(s.Top().level)
    else None
  }

  /** `push` is called on a full stack. */
  predicate Refuses(s: XState, c: BidiClass)
  {
    s.Nonempty() && Asked(s, c).Some? && |s.stack| >= MAX_DEPTH
  }

  predicate RefusesIsolate(s: XState, c: BidiClass)
  {
    (c.RightToLeftIsolate? || c.LeftToRightIsolate?) && Refuses(s, c)
  }

  predicate AcceptsIsolates(s: XState, syms: seq<BidiClass>)
  {
    syms == [] || (AcceptsIsolates(s, syms[..|syms| - 1]) &&
                   !RefusesIsolate(Run(s, syms[..|syms| - 1]), syms[|syms| - 1]))
  }

  lemma {:induction false} IncreasingBounds(stack: seq<StackEntry>, k: nat, l: nat)
    requires Increasing(stack) && k <= l < |stack|
    ensures stack[k].level + (l - k) <= stack[l].level
    decreases l - k
  {
    if k < l {
      IncreasingBounds(stack, k, l - 1);
      assert stack[l - 1].level < stack[l].level;
    }
  }

  /** A push is refused exactly when the base level is 0, the levels 0 to 124 are all stacked, no
      overflow is pending and an odd level is asked for. */
  lemma RefusalIff(base: int, s: XState, c: BidiClass)
    requires 0 <= base <= 1 && Safe(base, s) && s.Active?
    ensures Refuses(s, c) <==>
      && base == 0 && |s.stack| == MAX_DEPTH
      && (forall k {:trigger s.stack[k]} :: 0 <= k < MAX_DEPTH ==> s.stack[k].level == k)
      && AsksOdd(c) && s.overflowIsolate == 0 && s.overflowEmbedding == 0
  {
    if |s.stack| == MAX_DEPTH {
      var n := MAX_DEPTH - 1;
      IncreasingBounds(s.stack, 0, n);
      forall k {:trigger s.stack[k]} | 0 <= k <= n
        ensures s.stack[k].level + (n - k) <= s.stack[n].level && base + k <= s.stack[k].level
      {
        IncreasingBounds(s.stack, k, n);
        IncreasingBounds(s.stack, 0, k);
      }
    }
  }

  /** No push at all is refused on the way through `syms`. */
  ghost predicate AcceptsAll(s: XState, syms: seq<BidiClass>) {
    forall k {:trigger syms[k]} :: 0 <= k < |syms| ==> !Refuses(Run(s, syms[..k]), syms[k])
  }

  lemma {:induction false} AcceptsAllIsolates(s: XState, syms: seq<BidiClass>)
    requires AcceptsAll(s, syms)
    ensures AcceptsIsolates(s, syms)
    decreases |syms|
  {
    if syms != [] {
      var n := |syms| - 1;
      var pre := syms[..n];
      forall k {:trigger pre[k]} | 0 <= k < n ensures !Refuses(Run(s, pre[..k]), pre[k]) {
        assert pre[..k] == syms[..k] && pre[k] == syms[k];
      }
      AcceptsAllIsolates(s, pre);
    }
  }

  /** With base level 1 no push, of an embedding or of an isolate, is ever refused. */
  lemma BaseOneAccepts(s: XState, syms: seq<BidiClass>)
    requires Safe(1, s)
    ensures AcceptsAll(s, syms) && AcceptsIsolates(s, syms)
  {
    forall k {:trigger syms[k]} | 0 <= k < |syms| ensures !Refuses(Run(s, syms[..k]), syms[k]) {
      RunSafe(1, s, syms[..k]);
      if Run(s, syms[..k]).Active? {
        RefusalIff(1, Run(s, syms[..k]), syms[k]);
      }
    }
    AcceptsAllIsolates(s, syms);
  }

  lemma AcceptsNext(s: XState, syms: seq<BidiClass>, c: BidiClass)
    ensures AcceptsIsolates(s, syms + [c]) <==> AcceptsIsolates(s, syms) && !RefusesIsolate(Run(s, syms), c)
  {
    assert (syms + [c])[..|syms|] == syms;
  }

  lemma {:induction false} AcceptsPrefix(s: XState, a: seq<BidiClass>, b: seq<BidiClass>)
    ensures AcceptsIsolates(s, a + b) <==> AcceptsIsolates(s, a) && AcceptsIsolates(Run(s, a), b)
    decreases |b|
  {
    if b == [] {
      assert a + b == a;
    } else {
      var pre, c := b[..|b| - 1], b[|b| - 1];
      assert b == pre + [c] && a + b == a + pre + [c];
      AcceptsPrefix(s, a, pre);
      RunConcat(s, a, pre);
      AcceptsNext(s, a + pre, c);
      AcceptsNext(Run(s, a), pre, c);
    }
  }

  // ---------------------------------------------------------------- the unwinding loop

  /** The loop of X6a runs off the stack exactly when an isolate is counted but none is stacked. */
  lemma StepPanicsIff(base: int, s: XState, c: BidiClass)
    requires Safe(base, s) && s.Active?
    ensures Step(s, c).Panic? <==>
      && c.PopDirectionalIsolate? && s.overflowIsolate == 0
      && s.validIsolate > 0 && IsolateCount(s.stack) == 0
  {
    CloseSafe(base, s);
  }

  /** How many isolates are counted without being stacked. */
  function Excess(s: XState): int
    requires s.Active?
  {
    s.validIsolate - IsolateCount(s.stack)
  }

  lemma EmbedExcess(base: int, s: XState, level: Option<int>, override: Override)
    requires Safe(base, s) && s.Active? && NextLevel(s, level)
    ensures Excess(Embed(s, level, override)) == Excess(s)
  {
    EmbedSafe(base, s, level, override);
  }

  lemma IsolateExcess(base: int, s: XState, level: Option<int>)
    requires Safe(base, s) && s.Active? && NextLevel(s, level)
    ensures Excess(Isolate(s, level)) == Excess(s) +
      if level.Some? && s.overflowIsolate == s.overflowEmbedding == 0 && |s.stack| >= MAX_DEPTH then 1 else 0
  {
    IsolateSafe(base, s, level);
  }

  lemma CloseExcess(base: int, s: XState)
    requires Safe(base, s) && s.Active? && CloseIsolate(s).Active?
    ensures Excess(CloseIsolate(s)) == Excess(s)
  {
    CloseSafe(base, s);
  }

  lemma PopFormatExcess(base: int, s: XState)
    requires Safe(base, s) && s.Active?
    ensures PopFormat(s).Active? && Excess(PopFormat(s)) == Excess(s)
  {
    PopFormatSafe(base, s);
  }

  /** The excess never falls, and rises when an isolate is refused. */
  lemma StepExcess(base: int, s: XState, c: BidiClass)
    requires Safe(base, s) && s.Active? && Step(s, c).Active?
    ensures Excess(Step(s, c)) == Excess(s) + if RefusesIsolate(s, c) then 1 else 0
  {
    NextLevels(base, s);
    var level := s.Top().level;
    match c {
      case RightToLeftEmbedding => EmbedExcess(base, s, LeastGreaterOdd(level), NeutralOverride);
      case LeftToRightEmbedding => EmbedExcess(base, s, LeastGreaterEven(level), NeutralOverride);
      case RightToLeftOverride => EmbedExcess(base, s, LeastGreaterOdd(level), OverrideRTL);
      case LeftToRightOverride => EmbedExcess(base, s, LeastGreaterEven(level), OverrideLTR);
      case RightToLeftIsolate => IsolateExcess(base, s, LeastGreaterOdd(level));
      case LeftToRightIsolate => IsolateExcess(base, s, LeastGreaterEven(level));
      case PopDirectionalIsolate => CloseExcess(base, s);
      case PopDirectionalFormat => PopFormatExcess(base, s);
      case _ =>
    }
  }

  ghost predicate Exact(s: XState) {
    s.Active? && IsolateCount(s.stack) == s.validIsolate
  }

  lemma StepExact(base: int, s: XState, c: BidiClass)
    requires Safe(base, s) && Exact(s) && !RefusesIsolate(s, c)
    ensures Exact(Step(s, c))
  {
    StepPanicsIff(base, s, c);
    StepExcess(base, s, c);
  }

  /** While no isolate is refused, `valid_isolate` is the number of isolate entries on the stack,
      and the unwinding loop always stops. */
  lemma {:induction false} RunExact(base: int, s: XState, syms: seq<BidiClass>)
    requires Safe(base, s) && Exact(s) && AcceptsIsolates(s, syms)
    ensures Exact(Run(s, syms)) && Safe(base, Run(s, syms))
    decreases |syms|
  {
    RunSafe(base, s, syms);
    if syms != [] {
      var n := |syms| - 1;
      RunExact(base, s, syms[..n]);
      StepExact(base, Run(s, syms[..n]), syms[n]);
    }
  }

  function Pdis(n: nat): seq<BidiClass> {
    seq(n, _ => PopDirectionalIsolate)
  }

  lemma PdisNext(s: XState, n: nat)
    ensures Run(s, Pdis(n + 1)) == Run(Step(s, PopDirectionalIsolate), Pdis(n))
  {
    var first := [PopDirectionalIsolate];
    assert Pdis(n + 1) == first + Pdis(n);
    RunConcat(s, first, Pdis(n));
    assert first[..0] == [];
    assert Run(s, []) == s;
  }

  /** A PDI closes an isolate that is stacked or overflowing; when there is none, one that is counted makes
      it panic. */
  lemma PdiCloses(base: int, s: XState, s': XState)
    requires Safe(base, s) && s.Active? && IsolateCount(s.stack) < s.validIsolate
    requires s' == Step(s, PopDirectionalIsolate)
    ensures Safe(base, s')
    ensures s'.Active? ==>
      && IsolateCount(s'.stack) < s'.validIsolate
      && s'.overflowIsolate + IsolateCount(s'.stack) + 1 == s.overflowIsolate + IsolateCount(s.stack)
  {
    CloseSafe(base, s);
  }

  /** Once more isolates are counted than stacked, PDIs drive the loop off the stack. */
  lemma {:induction false} ExcessPanics(base: int, s: XState)
    requires Safe(base, s) && s.Active? && IsolateCount(s.stack) < s.validIsolate
    ensures Run(s, Pdis(s.overflowIsolate + IsolateCount(s.stack) + 1)).Panic?
    decreases s.overflowIsolate + IsolateCount(s.stack)
  {
    var n, s' := s.overflowIsolate + IsolateCount(s.stack), Step(s, PopDirectionalIsolate);
    PdisNext(s, n);
    PdiCloses(base, s, s');
    if s'.Panic? {
      PanicStays(Pdis(n));
    } else {
      ExcessPanics(base, s');
    }
  }

  lemma {:induction false} PanicStays(syms: seq<BidiClass>)
    ensures Run(Panic, syms).Panic?
    decreases |syms|
  {
    if syms != [] {
      PanicStays(syms[..|syms| - 1]);
    }
  }

  /** A refused isolate is the only way to get there, and it always gets there: after it, closing
      the open isolates runs the loop off the stack. */
  lemma RefusedIsolatePanics(base: int, s: XState, c: BidiClass) returns (n: nat)
    requires Safe(base, s) && Exact(s) && RefusesIsolate(s, c)
    ensures Run(s, [c] + Pdis(n)).Panic?
  {
    var s' := Step(s, c);
    StepSafe(base, s, c);
    ExcessPanics(base, s');
    n := s'.overflowIsolate + IsolateCount(s'.stack) + 1;
    RunConcat(s, [c], Pdis(n));
    assert [c][..0] == [];
    assert Run(s, []) == s;
    assert Run(s, [c]) == s';
  }

  lemma {:induction false} PdisAccepted(s: XState, n: nat)
    ensures AcceptsIsolates(s, Pdis(n))
    decreases n
  {
    if 0 < n {
      assert Pdis(n)[..n - 1] == Pdis(n - 1);
      PdisAccepted(s, n - 1);
    }
  }

  lemma {:induction false} FirstRefusal(s: XState, syms: seq<BidiClass>) returns (k: nat)
    requires !AcceptsIsolates(s, syms)
    ensures k < |syms| && AcceptsIsolates(s, syms[..k]) && RefusesIsolate(Run(s, syms[..k]), syms[k])
    decreases |syms|
  {
    var n := |syms| - 1;
    if AcceptsIsolates(s, syms[..n]) {
      k := n;
    } else {
      k := FirstRefusal(s, syms[..n]);
      assert syms[..n][..k] == syms[..k];
    }
  }

  /** Any number of PDIs after any beginning of the text. */
  ghost predicate ClosesSafely(s: XState, syms: seq<BidiClass>) {
    forall k: nat, n: nat {:trigger Run(s, syms[..k] + Pdis(n))} ::
      k <= |syms| ==> Run(s, syms[..k] + Pdis(n)).Active?
  }

  lemma AcceptsClosesSafely(base: int, s: XState, syms: seq<BidiClass>, k: nat, n: nat)
    requires Safe(base, s) && Exact(s) && AcceptsIsolates(s, syms) && k <= |syms|
    ensures Run(s, syms[..k] + Pdis(n)).Active?
  {
    assert syms == syms[..k] + syms[k..];
    AcceptsPrefix(s, syms[..k], syms[k..]);
    RunExact(base, s, syms[..k]);
    PdisAccepted(Run(s, syms[..k]), n);
    RunExact(base, Run(s, syms[..k]), Pdis(n));
    RunConcat(s, syms[..k], Pdis(n));
  }

  lemma RefusalPanics(base: int, s: XState, pre: seq<BidiClass>, c: BidiClass) returns (n: nat)
    requires Safe(base, s) && Exact(s) && AcceptsIsolates(s, pre) && RefusesIsolate(Run(s, pre), c)
    ensures Run(s, pre + [c] + Pdis(n)).Panic?
  {
    RunExact(base, s, pre);
    n := RefusedIsolatePanics(base, Run(s, pre), c);
    RunConcat(s, pre, [c] + Pdis(n));
    assert pre + ([c] + Pdis(n)) == pre + [c] + Pdis(n);
  }

  /** The unwinding loop is safe, whatever isolates are closed next, exactly when no push of an
      isolate is refused. */
  lemma UnwindingSafeIff(base: int, s: XState, syms: seq<BidiClass>)
    requires Safe(base, s) && Exact(s)
    ensures AcceptsIsolates(s, syms) <==> ClosesSafely(s, syms)
  {
    if AcceptsIsolates(s, syms) {
      forall k: nat, n: nat {:trigger Run(s, syms[..k] + Pdis(n))} | k <= |syms|
        ensures Run(s, syms[..k] + Pdis(n)).Active?
      {
        AcceptsClosesSafely(base, s, syms, k, n);
      }
    } else {
      var k := FirstRefusal(s, syms);
      var n := RefusalPanics(base, s, syms[..k], syms[k]);
      assert syms[..k + 1] == syms[..k] + [syms[k]];
      assert Run(s, syms[..k + 1] + Pdis(n)).Panic?;
    }
  }

  /** A text that is not accepted ends in a panic or with an isolate in excess. */
  lemma {:induction false} RunExcess(base: int, s: XState, syms: seq<BidiClass>)
    requires Safe(base, s) && s.Active? && Run(s, syms).Active?
    ensures Excess(s) <= Excess(Run(s, syms))
    ensures Excess(s) == Excess(Run(s, syms)) <==> AcceptsIsolates(s, syms)
    decreases |syms|
  {
    if syms != [] {
      var n := |syms| - 1;
      var t := Run(s, syms[..n]);
      assert t.Active?;
      RunSafe(base, s, syms[..n]);
      RunExcess(base, s, syms[..n]);
      StepExcess(base, t, syms[n]);
    }
  }

  // ---------------------------------------------------------------- a text that is refused

  /** Embeddings of alternating direction. */
  function Nesting(n: nat): (syms: seq<BidiClass>)
    ensures |syms| == n
  {
    seq(n, k requires 0 <= k < n => if k % 2 == 0 then RightToLeftEmbedding else LeftToRightEmbedding)
  }

  function Chain(n: nat): (stack: seq<StackEntry>)
    ensures |stack| == n
  {
    seq(n, k requires 0 <= k < n => StackEntry(k, NeutralOverride, false))
  }

  lemma ChainStep(n: nat)
    requires 0 < n < MAX_DEPTH
    ensures Step(Active(Chain(n), 0, 0, 0), if n % 2 == 1 then RightToLeftEmbedding else LeftToRightEmbedding)
         == Active(Chain(n + 1), 0, 0, 0)
  {
  }

  lemma NestingNext(n: nat, c: BidiClass)
    requires 0 < n && c == if n % 2 == 1 then RightToLeftEmbedding else LeftToRightEmbedding
    ensures Nesting(n) == Nesting(n - 1) + [c]
  {
  }

  lemma {:induction false} NestingChain(n: nat)
    requires n < MAX_DEPTH
    ensures Run(Initial(0), Nesting(n)) == Active(Chain(n + 1), 0, 0, 0)
    decreases n
  {
    if n == 0 {
      assert Chain(1) == Initial(0).stack;
    } else {
      var c := if n % 2 == 1 then RightToLeftEmbedding else LeftToRightEmbedding;
      var s, s' := Active(Chain(n), 0, 0, 0), Active(Chain(n + 1), 0, 0, 0);
      var start, syms := Initial(0), Nesting(n - 1);
      assert Step(s, c) == s' by { ChainStep(n); }
      assert Run(start, syms) == s by { NestingChain(n - 1); }
      RunAppend(start, syms, c, s, s');
      NestingNext(n, c);
    }
  }

  lemma TwoSteps(s: XState, c: BidiClass, d: BidiClass)
    ensures Run(s, [c, d]) == Step(Step(s, c), d)
  {
    assert [c, d][..1] == [c] && [c][..0] == [];
    assert Run(s, [c]) == Step(Run(s, []), c);
  }

  lemma FullChainPanics()
    ensures Step(Step(Active(Chain(MAX_DEPTH), 0, 0, 0), RightToLeftIsolate), PopDirectionalIsolate).Panic?
  {
  }

  /** With base level 0, an isolate after 124 embeddings is refused, and closing it panics. */
  lemma RefusedText()
    ensures Run(Initial(0), Nesting(124) + [RightToLeftIsolate, PopDirectionalIsolate]).Panic?
  {
    NestingChain(124);
    RunConcat(Initial(0), Nesting(124), [RightToLeftIsolate, PopDirectionalIsolate]);
    TwoSteps(Active(Chain(MAX_DEPTH), 0, 0, 0), RightToLeftIsolate, PopDirectionalIsolate);
    FullChainPanics();
  }

  /** An embedding and the PDF right after it leave the state as it was, unless the push is refused
      with no isolate on top: a refused embedding counts nowhere, and the PDF pops the entry before it. */
  lemma EmbeddingAndPdfIff(base: int, s: XState, c: BidiClass)
    requires 0 <= base <= 1 && Safe(base, s) && s.Active? && IsEmbedding(c)
    ensures Step(Step(s, c), PopDirectionalFormat) == s <==> !Refuses(s, c) || s.Top().isolate
  {
    RefusalIff(base, s, c);
  }

  lemma FullChainPops(n: nat)
    requires n == MAX_DEPTH - 1
    ensures Step(Step(Active(Chain(n + 1), 0, 0, 0), RightToLeftEmbedding), PopDirectionalFormat)
         == Active(Chain(n), 0, 0, 0)
  {
  }

  /** An embedding refused by the full stack counts nowhere, so the PDF that ends it pops the entry
      before it: `n` embeddings, one more and its PDF leave the state after `n - 1`. */
  lemma RefusedEmbeddingUnbalanced(n: nat)
    requires n == MAX_DEPTH - 1
    ensures Run(Initial(0), Nesting(n) + [RightToLeftEmbedding, PopDirectionalFormat])
         == Run(Initial(0), Nesting(n - 1))
  {
    NestingChain(n);
    NestingChain(n - 1);
    RunConcat(Initial(0), Nesting(n), [RightToLeftEmbedding, PopDirectionalFormat]);
    TwoSteps(Active(Chain(n + 1), 0, 0, 0), RightToLeftEmbedding, PopDirectionalFormat);
    FullChainPops(n);
  }
}
