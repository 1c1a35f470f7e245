/** The directional status stack, `bidi/src/level_stack.rs`. */
module LevelStacks {
  import opened BidiTypes

  datatype Override = NeutralOverride | OverrideLTR | OverrideRTL

  datatype StackEntry = StackEntry(level: int, override: Override, isolate: bool)

  /** Three parallel arrays of 125 slots and the number of slots in use. */
  class LevelStack {
    const embeddingLevel: array<int>
    const overrideStatus: array<Override>
    const isolateStatus: array<bool>
    var depth: nat

    ghost predicate Valid()
      reads this
    {
      && embeddingLevel.Length == MAX_DEPTH
      && overrideStatus.Length == MAX_DEPTH
      && isolateStatus.Length == MAX_DEPTH
      && depth <= MAX_DEPTH
    }

    ghost function Repr(): set<object> {
      {this, embeddingLevel, overrideStatus, isolateStatus}
    }

    /** The entries in use, bottom first. */
    ghost function Entries(): (s: seq<StackEntry>)
      requires Valid()
      reads this, embeddingLevel, overrideStatus, isolateStatus
      ensures |s| == depth
      ensures forall k {:trigger s[k]} :: 0 <= k < depth ==>
        s[k] == StackEntry(embeddingLevel[k], overrideStatus[k], isolateStatus[k])
    {
      var d := depth;
      seq(d, k requires 0 <= k < d reads this, embeddingLevel, overrideStatus, isolateStatus =>
        StackEntry(embeddingLevel[k], overrideStatus[k], isolateStatus[k]))
    }

    constructor ()
      ensures Valid() && fresh(Repr())
      ensures Entries() == []
    {
      embeddingLevel := new int[MAX_DEPTH](_ => 0);
      overrideStatus := new Override[MAX_DEPTH](_ => NeutralOverride);
      isolateStatus := new bool[MAX_DEPTH](_ => false);
      depth := 0;
    }

    /** A full stack refuses the entry without telling the caller. */
    method Push(level: int, override: Override, isolate: bool)
      requires Valid()
      modifies this`depth, embeddingLevel, overrideStatus, isolateStatus
      ensures Valid()
      ensures Entries() == PushedOn(old(Entries()), StackEntry(level, override, isolate))
    {
      var d := depth;
      if d >= MAX_DEPTH {
        return;
      }
      embeddingLevel[d] := level;
      overrideStatus[d] := override;
      isolateStatus[d] := isolate;
      depth := depth + 1;
    }

    method Pop()
      requires Valid()
      modifies this`depth
      ensures Valid()
      ensures Entries() == old(if |Entries()| > 0 then Entries()[..|Entries()| - 1] else [])
    {
      if depth > 0 {
        depth := depth - 1;
      }
    }

    /** The accessors read slot `depth - 1`, which is out of bounds on an empty stack. */
    function EmbeddingLevel(): (level: int)
      requires Valid() && depth > 0
      reads this, embeddingLevel, overrideStatus, isolateStatus
      ensures level == Entries()[depth - 1].level
    {
      embeddingLevel[depth - 1]
    }

    function IsolateStatus(): (isolate: bool)
      requires Valid() && depth > 0
      reads this, embeddingLevel, overrideStatus, isolateStatus
      ensures isolate == Entries()[depth - 1].isolate
    {
      isolateStatus[depth - 1]
    }

    function ApplyOverride(bc: BidiClass): (r: BidiClass)
      requires Valid() && depth > 0
      reads this, embeddingLevel, overrideStatus, isolateStatus
      ensures r == Overridden(Entries()[depth - 1].override, bc)
    {
      match overrideStatus[depth - 1]
      case OverrideLTR => LeftToRight
      case OverrideRTL => RightToLeft
      case NeutralOverride => bc
    }
  }

  function PushedOn(s: seq<StackEntry>, e: StackEntry): seq<StackEntry> {
    if |s| < MAX_DEPTH then s + [e] else s
  }

  function Overridden(override: Override, bc: BidiClass): BidiClass {
    match override
    case OverrideLTR => LeftToRight
    case OverrideRTL => RightToLeft
    case NeutralOverride => bc
  }
}
