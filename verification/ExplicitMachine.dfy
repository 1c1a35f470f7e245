/** The moves of `explicit_embedding_levels` on the status stack object. */
module ExplicitMachine {
  import opened Options
  import opened BidiTypes
  import opened LevelStacks
  import opened ExplicitLevels

  datatype Counters = Counters(overflowIsolate: nat, overflowEmbedding: nat, validIsolate: nat)

  ghost function View(stack: LevelStack, n: Counters): XState
    requires stack.Valid()
    reads stack, stack.Repr()
  {
    Active(stack.Entries(), n.overflowIsolate, n.overflowEmbedding, n.validIsolate)
  }

  /** X2 to X5 */
  method EmbedMove(stack: LevelStack, n: Counters, level: Option<int>, override: Override) returns (n': Counters)
    requires stack.Valid()
    modifies stack.Repr()
    ensures stack.Valid() && View(stack, n') == Embed(old(View(stack, n)), level, override)
  {
    n' := n;
    if level.Some? {
      if n.overflowIsolate == 0 && n.overflowEmbedding == 0 {
        stack.Push(level.value, override, false);
        return;
      }
    }
    if n.overflowIsolate == 0 {
      n' := n.(overflowEmbedding := n.overflowEmbedding + 1);
    }
  }

  /** X5a to X5c */
  method IsolateMove(stack: LevelStack, n: Counters, level: Option<int>) returns (n': Counters)
    requires stack.Valid()
    modifies stack.Repr()
    ensures stack.Valid() && View(stack, n') == Isolate(old(View(stack, n)), level)
  {
    n' := n;
    if level.Some? {
      if n.overflowIsolate == 0 && n.overflowEmbedding == 0 {
        n' := n.(validIsolate := n.validIsolate + 1);
        stack.Push(level.value, NeutralOverride, true);
        return;
      }
    }
    n' := n.(overflowIsolate := n.overflowIsolate + 1);
  }

  /** The loop of X6a; `ok` is false when it reads the status of an empty stack. */
  method UnwindLoop(stack: LevelStack) returns (ok: bool)
    requires stack.Valid()
    modifies stack.Repr()
    ensures stack.Valid() && stack.Entries() == Unwind(old(stack.Entries()))
    ensures ok <==> stack.Entries() != []
  {
    while stack.depth > 0 && !stack.IsolateStatus()
      invariant stack.Valid() && Unwind(stack.Entries()) == Unwind(old(stack.Entries()))
      decreases stack.depth
    {
      stack.Pop();
    }
    ok := stack.depth > 0;
  }

  /** X6a; `ok` is false when the code reads an empty stack. */
  method CloseMove(stack: LevelStack, n: Counters) returns (ok: bool, n': Counters)
    requires stack.Valid() && stack.Entries() != []
    modifies stack.Repr()
    ensures stack.Valid()
    ensures if ok then View(stack, n') == CloseIsolate(old(View(stack, n))) && stack.Entries() != []
            else CloseIsolate(old(View(stack, n))).Panic?
  {
    ok, n' := true, n;
    if n.overflowIsolate > 0 {
      n' := n.(overflowIsolate := n.overflowIsolate - 1);
    } else if n.validIsolate == 0 {
    } else {
      ok := UnwindLoop(stack);
      if !ok {
        return;
      }
      stack.Pop();
      ok := stack.depth > 0;
      n' := Counters(0, 0, n.validIsolate - 1);
    }
  }

  /** X7 */
  method PopMove(stack: LevelStack, n: Counters) returns (n': Counters)
    requires stack.Valid() && stack.Entries() != []
    modifies stack.Repr()
    ensures stack.Valid() && View(stack, n') == PopFormat(old(View(stack, n)))
  {
    n' := n;
    if n.overflowIsolate > 0 {
    } else if n.overflowEmbedding > 0 {
      n' := n.(overflowEmbedding := n.overflowEmbedding - 1);
    } else if !stack.IsolateStatus() {
      if stack.depth >= 2 {
        stack.Pop();
      }
    }
  }

  /** X2 to X7 for one character, an FSI already turned into RLI or LRI. */
  method Move(stack: LevelStack, n: Counters, c: BidiClass) returns (ok: bool, n': Counters)
    requires stack.Valid() && stack.Entries() != []
    modifies stack.Repr()
    ensures stack.Valid()
    ensures if ok then View(stack, n') == Step(old(View(stack, n)), c) && stack.Entries() != []
            else Step(old(View(stack, n)), c).Panic?
  {
    ok, n' := true, n;
    var level := stack.EmbeddingLevel();
    match c {
      case RightToLeftEmbedding => n' := EmbedMove(stack, n, LeastGreaterOdd(level), NeutralOverride);
      case LeftToRightEmbedding => n' := EmbedMove(stack, n, LeastGreaterEven(level), NeutralOverride);
      case RightToLeftOverride => n' := EmbedMove(stack, n, LeastGreaterOdd(level), OverrideRTL);
      case LeftToRightOverride => n' := EmbedMove(stack, n, LeastGreaterEven(level), OverrideLTR);
      case RightToLeftIsolate => n' := IsolateMove(stack, n, LeastGreaterOdd(level));
      case LeftToRightIsolate => n' := IsolateMove(stack, n, LeastGreaterEven(level));
      case PopDirectionalIsolate => ok, n' := CloseMove(stack, n);
      case PopDirectionalFormat => n' := PopMove(stack, n);
      case _ =>
    }
  }
}
