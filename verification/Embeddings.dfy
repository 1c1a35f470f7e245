/** What an embedding and its matching PDF leave behind: rules X2 to X5 and X7. */
module Embeddings {
  import opened BidiTypes
  import opened LevelStacks
  import opened ParagraphLevels
  import opened ExplicitLevels
  import opened Isolates

  /** Embeddings and overrides opened, less PDFs. */
  function EmbedNet(w: seq<BidiClass>): (d: int) {
    if w == [] then 0 else EmbedNet(w[..|w| - 1]) + EmbedChange(w[|w| - 1])
  }

  function EmbedChange(c: BidiClass): int {
    if IsEmbedding(c) then 1 else if c.PopDirectionalFormat? then -1 else 0
  }

  ghost predicate NoIsolates(w: seq<BidiClass>) {
    forall k {:trigger w[k]} :: 0 <= k < |w| ==> !w[k].IsIsoControl()
  }

  /** `w` starts with an embedding that it does not close. */
  ghost predicate Within(w: seq<BidiClass>) {
    NoIsolates(w) && forall k {:trigger w[..k]} :: 0 < k <= |w| ==> 0 < EmbedNet(w[..k])
  }

  lemma WithinPrefix(w: seq<BidiClass>)
    requires Within(w) && w != []
    ensures Within(w[..|w| - 1]) && 0 < EmbedNet(w) && (|w| > 1 ==> 0 < EmbedNet(w[..|w| - 1]))
  {
    var v := w[..|w| - 1];
    assert w[..|w|] == w;
    forall k {:trigger v[..k]} | 0 < k <= |v| ensures 0 < EmbedNet(v[..k]) {
      assert v[..k] == w[..k];
    }
  }

  lemma AcceptsAllPrefix(s: XState, w: seq<BidiClass>)
    requires w != []
    ensures var n := |w| - 1;
            AcceptsAll(s, w) <==> AcceptsAll(s, w[..n]) && !Refuses(Run(s, w[..n]), w[n])
  {
    var n := |w| - 1;
    var v := w[..n];
    forall k {:trigger v[k]} {:trigger w[k]} | 0 <= k < n ensures v[..k] == w[..k] && v[k] == w[k] {
    }
    assert AcceptsAll(s, w) ==> AcceptsAll(s, v);
  }

  // ---------------------------------------------------------------- overflow

  lemma OverflowKeptStep(s: XState, c: BidiClass)
    requires s.Nonempty() && (0 < s.overflowIsolate || 0 < s.overflowEmbedding) && !c.IsIsoControl()
    ensures !Refuses(s, c)
    ensures Step(s, c) == if 0 < s.overflowIsolate then s
                          else s.(overflowEmbedding := s.overflowEmbedding + EmbedChange(c))
  {
  }

  /** An embedding met during an overflow is counted, or ignored inside an overflow isolate. */
  lemma {:induction false} OverflowKept(s: XState, w: seq<BidiClass>)
    requires s.Nonempty() && (0 < s.overflowIsolate || 0 < s.overflowEmbedding) && Within(w)
    ensures AcceptsAll(s, w)
    ensures Run(s, w) == if 0 < s.overflowIsolate then s else s.(overflowEmbedding := s.overflowEmbedding + EmbedNet(w))
    decreases |w|
  {
    if w != [] {
      var n := |w| - 1;
      WithinPrefix(w);
      OverflowKept(s, w[..n]);
      AcceptsAllPrefix(s, w);
      assert n == 0 ==> w[..n] == [];
      OverflowKeptStep(Run(s, w[..n]), w[n]);
    }
  }

  // ---------------------------------------------------------------- on the stack

  ghost predicate NoIsolateFrom(stack: seq<StackEntry>, n: int) {
    forall k {:trigger stack[k]} :: 0 <= n <= k < |stack| ==> !stack[k].isolate
  }

  ghost predicate Idle(s: XState) {
    s.Nonempty() && s.overflowIsolate == 0 && s.overflowEmbedding == 0
  }

  /** `t` is `s` with embeddings above its stack, at most `d` of them with those that overflow. */
  ghost predicate Above(s: XState, t: XState, d: int)
    requires s.Active?
  {
    && t.Active? && t.overflowIsolate == 0 && t.validIsolate == s.validIsolate
    && s.stack <= t.stack && NoIsolateFrom(t.stack, |s.stack|)
    && |t.stack| - |s.stack| + t.overflowEmbedding <= d
  }

  /** Where the stack cannot be popped, refusals cannot do harm. */
  ghost predicate AtFloor(s: XState)
    requires s.Nonempty()
  {
    s.Top().isolate || |s.stack| == 1
  }

  /** Exactly `d` embeddings are open. */
  ghost predicate AboveBy(s: XState, t: XState, d: int)
    requires s.Active?
  {
    Above(s, t, d) && |t.stack| - |s.stack| + t.overflowEmbedding == d
  }

  lemma AboveStep(s: XState, t: XState, d: int, c: BidiClass)
    requires Idle(s) && AboveBy(s, t, d) && !c.IsIsoControl() && 0 <= d + EmbedChange(c) && !Refuses(t, c)
    ensures AboveBy(s, Step(t, c), d + EmbedChange(c))
  {
  }

  lemma FloorStep(s: XState, t: XState, d: int, c: BidiClass)
    requires Idle(s) && Above(s, t, d) && !c.IsIsoControl() && 0 <= d + EmbedChange(c) && AtFloor(s)
    ensures Above(s, Step(t, c), d + EmbedChange(c))
  {
  }

  /** Without a refusal the embeddings open are those counted. */
  lemma {:induction false} AcceptedAbove(s: XState, w: seq<BidiClass>)
    requires Idle(s) && Within(w) && AcceptsAll(s, w)
    ensures AboveBy(s, Run(s, w), EmbedNet(w))
    decreases |w|
  {
    if w != [] {
      var n := |w| - 1;
      WithinPrefix(w);
      AcceptsAllPrefix(s, w);
      AcceptedAbove(s, w[..n]);
      AboveStep(s, Run(s, w[..n]), EmbedNet(w[..n]), w[n]);
    }
  }

  lemma {:induction false} FloorHolds(s: XState, w: seq<BidiClass>)
    requires Idle(s) && AtFloor(s) && Within(w)
    ensures Above(s, Run(s, w), EmbedNet(w))
    decreases |w|
  {
    if w != [] {
      var n := |w| - 1;
      WithinPrefix(w);
      FloorHolds(s, w[..n]);
      FloorStep(s, Run(s, w[..n]), EmbedNet(w[..n]), w[n]);
    }
  }

  /** One entry is missing, and the missing ones are not made up for by PDFs that pop nothing. */
  ghost predicate Short(s: XState, t: XState, d: int)
    requires s.Active?
  {
    && t.Nonempty() && t.overflowIsolate == 0
    && NoIsolateFrom(t.stack, |s.stack| - 1)
    && |t.stack| + t.overflowEmbedding < |s.stack| + d
  }

  lemma ShortStep(s: XState, t: XState, d: int, c: BidiClass)
    requires Idle(s) && !AtFloor(s) && Short(s, t, d) && 0 < d && !c.IsIsoControl()
    ensures Short(s, Step(t, c), d + EmbedChange(c))
  {
  }

  lemma RefusalIsShort(s: XState, t: XState, d: int, c: BidiClass)
    requires Idle(s) && !AtFloor(s) && AboveBy(s, t, d) && !c.IsIsoControl() && Refuses(t, c)
    ensures Short(s, Step(t, c), d + EmbedChange(c))
  {
  }

  /** A refused embedding leaves the stack short for good. */
  lemma {:induction false} RefusedShort(s: XState, w: seq<BidiClass>)
    requires Idle(s) && !AtFloor(s) && Within(w) && !AcceptsAll(s, w)
    ensures Short(s, Run(s, w), EmbedNet(w))
    decreases |w|
  {
    var n := |w| - 1;
    WithinPrefix(w);
    AcceptsAllPrefix(s, w);
    var t := Run(s, w[..n]);
    if AcceptsAll(s, w[..n]) {
      AcceptedAbove(s, w[..n]);
      RefusalIsShort(s, t, EmbedNet(w[..n]), w[n]);
    } else {
      RefusedShort(s, w[..n]);
      ShortStep(s, t, EmbedNet(w[..n]), w[n]);
    }
  }

  /** After `w` and the PDF that closes its first embedding the state is back if and only if no push was
      refused, or the stack could not be popped in the first place. */
  lemma EmbeddingRestoresPlain(s: XState, w: seq<BidiClass>)
    requires s.Nonempty() && w != [] && Within(w) && EmbedNet(w) == 1
    ensures Step(Run(s, w), PopDirectionalFormat) == s <==> AcceptsAll(s, w) || AtFloor(s)
  {
    var t, pdf := Run(s, w), PopDirectionalFormat;
    if !Idle(s) {
      OverflowKept(s, w);
    } else if AcceptsAll(s, w) {
      AcceptedAbove(s, w);
      AboveStep(s, t, 1, pdf);
      AboveByNothing(s, Step(t, pdf));
    } else if AtFloor(s) {
      FloorHolds(s, w);
      FloorStep(s, t, 1, pdf);
      AboveByNothing(s, Step(t, pdf));
    } else {
      RefusedShort(s, w);
      ShortStep(s, t, 1, pdf);
    }
  }

  lemma AboveByNothing(s: XState, t: XState)
    requires Idle(s) && Above(s, t, 0)
    ensures t == s
  {
  }

  // ---------------------------------------------------------------- isolates inside the embedding

  /** A stretch of text: a character that is no isolate control, or a whole matched isolate. */
  datatype Piece = Plain(c: BidiClass) | Isolated(init: BidiClass, content: seq<BidiClass>)

  function SpellOne(p: Piece): seq<BidiClass> {
    match p
    case Plain(c) => [c]
    case Isolated(init, content) => [init] + content + [PopDirectionalIsolate]
  }

  function Spell(pieces: seq<Piece>): seq<BidiClass> {
    if pieces == [] then [] else Spell(pieces[..|pieces| - 1]) + SpellOne(pieces[|pieces| - 1])
  }

  /** The text without its isolates. */
  function Plains(pieces: seq<Piece>): seq<BidiClass> {
    if pieces == [] then []
    else
      var p := pieces[|pieces| - 1];
      Plains(pieces[..|pieces| - 1]) + if p.Plain? then [p.c] else []
  }

  ghost predicate WellSpelt(p: Piece) {
    match p
    case Plain(c) => !c.IsIsoControl()
    case Isolated(init, content) =>
      (init.RightToLeftIsolate? || init.LeftToRightIsolate?) && NoFsi(content) && Balanced(content)
  }

  ghost predicate AllWellSpelt(pieces: seq<Piece>) {
    forall k {:trigger pieces[k]} :: 0 <= k < |pieces| ==> WellSpelt(pieces[k])
  }

  lemma RunOne(s: XState, c: BidiClass)
    ensures Run(s, [c]) == Step(s, c)
    ensures AcceptsIsolates(s, [c]) <==> !RefusesIsolate(s, c)
  {
    assert [c][..0] == [];
  }

  lemma IsolatePiece(s: XState, p: Piece)
    requires s.Nonempty() && WellSpelt(p) && p.Isolated? && AcceptsIsolates(s, SpellOne(p))
    ensures Run(s, SpellOne(p)) == s
  {
    var pdi := [PopDirectionalIsolate];
    AcceptsPrefix(s, [p.init] + p.content, pdi);
    AcceptsPrefix(s, [p.init], p.content);
    RunOne(s, p.init);
    IsolateRestoresState(s, p.init, p.content);
    RunConcat(s, [p.init] + p.content, pdi);
    RunConcat(s, [p.init], p.content);
    RunOne(Run(Step(s, p.init), p.content), PopDirectionalIsolate);
  }

  lemma {:induction false} PlainNonempty(s: XState, w: seq<BidiClass>)
    requires s.Nonempty() && NoIsolates(w)
    ensures Run(s, w).Nonempty()
    decreases |w|
  {
    if w != [] {
      PlainNonempty(s, w[..|w| - 1]);
    }
  }

  lemma {:induction false} PlainsHaveNoIsolates(pieces: seq<Piece>)
    requires AllWellSpelt(pieces)
    ensures NoIsolates(Plains(pieces))
    decreases |pieces|
  {
    if pieces != [] {
      PlainsHaveNoIsolates(pieces[..|pieces| - 1]);
    }
  }

  /** Accepted isolates leave no trace, so the machine runs as if they were not there. */
  lemma {:induction false} IsolatesElided(s: XState, pieces: seq<Piece>)
    requires s.Nonempty() && AllWellSpelt(pieces) && AcceptsIsolates(s, Spell(pieces))
    ensures Run(s, Spell(pieces)) == Run(s, Plains(pieces))
    decreases |pieces|
  {
    if pieces != [] {
      var n := |pieces| - 1;
      var pre, p := pieces[..n], pieces[n];
      AcceptsPrefix(s, Spell(pre), SpellOne(p));
      IsolatesElided(s, pre);
      PlainsHaveNoIsolates(pre);
      PlainNonempty(s, Plains(pre));
      RunConcat(s, Spell(pre), SpellOne(p));
      if p.Isolated? {
        IsolatePiece(Run(s, Spell(pre)), p);
        assert Plains(pieces) == Plains(pre);
      } else {
        RunConcat(s, Plains(pre), [p.c]);
      }
    }
  }

  /** Whatever balanced text with accepted isolates stands between an embedding and its PDF, the state
      comes back if and only if no push outside those isolates was refused, or the stack could not be
      popped before the embedding: it held the base entry alone, or an isolate on top. */
  lemma EmbeddingRestoresIff(s: XState, init: BidiClass, pieces: seq<Piece>)
    requires s.Nonempty() && IsEmbedding(init) && AllWellSpelt(pieces)
    requires var w := [init] + Plains(pieces); Within(w) && EmbedNet(w) == 1
    requires AcceptsIsolates(Step(s, init), Spell(pieces))
    ensures Step(Run(Step(s, init), Spell(pieces)), PopDirectionalFormat) == s
      <==> AcceptsAll(s, [init] + Plains(pieces)) || s.Top().isolate || |s.stack| == 1
  {
    var w := [init] + Plains(pieces);
    assert [init] == w[..1] && NoIsolates([init]);
    PlainNonempty(s, [init]);
    RunOne(s, init);
    IsolatesElided(Step(s, init), pieces);
    RunConcat(s, [init], Plains(pieces));
    EmbeddingRestoresPlain(s, w);
  }
}
