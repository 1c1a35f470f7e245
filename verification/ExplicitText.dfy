/** What rules X1 to X9 assign to the characters of a text, and isolate non-interference. */
module ExplicitText {
  import opened BidiTypes
  import opened LevelStacks
  import opened ParagraphLevels
  import opened ExplicitLevels
  import opened Isolates

  /** X5c turns an FSI into the isolate of the direction that its content asks for. */
  function SymbolAt(text: seq<BidiClass>, k: nat): BidiClass
    requires k < |text|
  {
    if !text[k].FirstStrongIsolate? then text[k]
    else if LevelOf(text[k + 1..], true, LTR) == 1 then RightToLeftIsolate
    else LeftToRightIsolate
  }

  function Symbols(text: seq<BidiClass>): (syms: seq<BidiClass>)
    ensures |syms| == |text|
    ensures forall k {:trigger syms[k]} :: 0 <= k < |text| ==> syms[k] == SymbolAt(text, k)
  {
    seq(|text|, k requires 0 <= k < |text| => SymbolAt(text, k))
  }

  /** The state of the machine before the character at `k`. */
  function StateAt(base: int, text: seq<BidiClass>, k: nat): XState
    requires k <= |text|
  {
    Run(Initial(base), Symbols(text)[..k])
  }

  lemma StateStep(base: int, text: seq<BidiClass>, k: nat)
    requires k < |text|
    ensures StateAt(base, text, k + 1) == Step(StateAt(base, text, k), SymbolAt(text, k))
  {
    RunStep(Initial(base), Symbols(text), k);
  }

  /** The state whose top the character at `k` takes its level and override from: a PDI belongs
      outside the isolate it closes. */
  function StateFor(base: int, text: seq<BidiClass>, k: nat): XState
    requires k < |text|
  {
    StateAt(base, text, if text[k].PopDirectionalIsolate? then k + 1 else k)
  }

  /** The entry on top; the value for a state without one is arbitrary. */
  function TopOf(s: XState): StackEntry {
    if s.Nonempty() then s.Top() else StackEntry(0, NeutralOverride, false)
  }

  function LevelIn(base: int, s: XState, c: BidiClass): int {
    if c.IsRemovedByX9() then NO_LEVEL else if c.ParagraphSeparator? then base else TopOf(s).level
  }

  function ClassIn(s: XState, c: BidiClass): BidiClass {
    if c.IsRemovedByX9() || c.ParagraphSeparator? then c else Overridden(TopOf(s).override, c)
  }

  /** The level of the character at `k` after rules X1 to X9. */
  function ExplicitLevel(base: int, text: seq<BidiClass>, k: nat): int
    requires k < |text|
  {
    LevelIn(base, StateFor(base, text, k), text[k])
  }

  /** The class of the character at `k` after rules X1 to X8. */
  function ExplicitClass(base: int, text: seq<BidiClass>, k: nat): BidiClass
    requires k < |text|
  {
    ClassIn(StateFor(base, text, k), text[k])
  }

  function LevelsOf(base: int, text: seq<BidiClass>): (lv: seq<int>)
    ensures |lv| == |text|
    ensures forall k {:trigger lv[k]} :: 0 <= k < |text| ==> lv[k] == ExplicitLevel(base, text, k)
  {
    seq(|text|, k requires 0 <= k < |text| => ExplicitLevel(base, text, k))
  }

  function ClassesOf(base: int, text: seq<BidiClass>): (g: seq<BidiClass>)
    ensures |g| == |text|
    ensures forall k {:trigger g[k]} :: 0 <= k < |text| ==> g[k] == ExplicitClass(base, text, k)
  {
    seq(|text|, k requires 0 <= k < |text| => ExplicitClass(base, text, k))
  }

  /** No push of an isolate is refused anywhere in the text. */
  ghost predicate Accepted(base: int, text: seq<BidiClass>) {
    AcceptsIsolates(Initial(base), Symbols(text))
  }

  /** No push of an isolate is refused in the first `k` characters. */
  ghost predicate AcceptedTo(base: int, text: seq<BidiClass>, k: nat)
    requires k <= |text|
  {
    AcceptsIsolates(Initial(base), Symbols(text)[..k])
  }

  lemma AcceptedPrefix(base: int, text: seq<BidiClass>, k: nat)
    requires Accepted(base, text) && k <= |text|
    ensures AcceptedTo(base, text, k)
  {
    assert Symbols(text) == Symbols(text)[..k] + Symbols(text)[k..];
    AcceptsPrefix(Initial(base), Symbols(text)[..k], Symbols(text)[k..]);
  }

  ghost predicate NeverPanics(base: int, text: seq<BidiClass>) {
    forall k {:trigger StateAt(base, text, k)} :: 0 <= k <= |text| ==> StateAt(base, text, k).Nonempty()
  }

  lemma InitialExact(base: int)
    requires 0 <= base <= 1
    ensures Safe(base, Initial(base)) && Exact(Initial(base))
  {
  }

  lemma StateSafe(base: int, text: seq<BidiClass>, k: nat)
    requires 0 <= base <= 1 && k <= |text|
    ensures Safe(base, StateAt(base, text, k))
    ensures Accepted(base, text) ==> Exact(StateAt(base, text, k))
  {
    InitialExact(base);
    RunSafe(base, Initial(base), Symbols(text)[..k]);
    if Accepted(base, text) {
      AcceptedPrefix(base, text, k);
      RunExact(base, Initial(base), Symbols(text)[..k]);
    }
  }

  /** A text that never has an isolate refused is processed without panic; with base level 1 that is
      every text. */
  lemma AcceptedNeverPanics(base: int, text: seq<BidiClass>)
    requires 0 <= base <= 1
    ensures Accepted(base, text) ==> NeverPanics(base, text)
    ensures base == 1 ==> Accepted(base, text)
  {
    InitialExact(base);
    if base == 1 {
      BaseOneAccepts(Initial(1), Symbols(text));
    }
    if Accepted(base, text) {
      forall k: nat | k <= |text| ensures StateAt(base, text, k).Nonempty() {
        StateSafe(base, text, k);
      }
    }
  }

  /** The visible levels lie between the base level and 125; exactly the X9 characters have none. */
  lemma ExplicitRange(base: int, text: seq<BidiClass>, k: nat)
    requires 0 <= base <= 1 && k < |text| && NeverPanics(base, text)
    ensures var level := ExplicitLevel(base, text, k);
            if text[k].IsRemovedByX9() then level == NO_LEVEL else base <= level <= MAX_DEPTH
    ensures ExplicitClass(base, text, k).IsRemovedByX9() <==> text[k].IsRemovedByX9()
  {
    var s := StateFor(base, text, k);
    StateSafe(base, text, k);
    StateSafe(base, text, k + 1);
    assert s.Nonempty();
    IncreasingBounds(s.stack, 0, |s.stack| - 1);
  }

  // ---------------------------------------------------------------- non-interference

  lemma {:induction false} SameNet(a: seq<BidiClass>, b: seq<BidiClass>)
    requires |a| == |b|
    requires forall k {:trigger a[k]} {:trigger b[k]} :: 0 <= k < |a| ==>
      a[k].IsIsoInit() == b[k].IsIsoInit() && a[k].PopDirectionalIsolate? == b[k].PopDirectionalIsolate?
    ensures Net(a) == Net(b)
  {
    if a != [] {
      var n := |a| - 1;
      SameNet(a[..n], b[..n]);
    }
  }

  lemma SymbolsNet(text: seq<BidiClass>, i: nat, j: nat)
    requires i <= j <= |text|
    ensures Net(Symbols(text)[i..j]) == Net(text[i..j]) && NoFsi(Symbols(text)[i..j])
  {
    var a, b := Symbols(text)[i..j], text[i..j];
    forall k {:trigger a[k]} | 0 <= k < |a|
      ensures a[k] == SymbolAt(text, i + k) && b[k] == text[i + k]
    {
    }
    SameNet(a, b);
  }

  lemma AcceptedFrom(base: int, text: seq<BidiClass>, k: nat, j: nat)
    requires Accepted(base, text) && k <= j <= |text|
    ensures AcceptsIsolates(StateAt(base, text, k), Symbols(text)[k..j])
  {
    var syms := Symbols(text);
    assert syms == syms[..j] + syms[j..];
    AcceptsPrefix(Initial(base), syms[..j], syms[j..]);
    assert syms[..j] == syms[..k] + syms[k..j];
    AcceptsPrefix(Initial(base), syms[..k], syms[k..j]);
  }

  lemma StateFrom(base: int, text: seq<BidiClass>, k: nat, j: nat)
    requires k <= j <= |text|
    ensures StateAt(base, text, j) == Run(StateAt(base, text, k), Symbols(text)[k..j])
  {
    var syms := Symbols(text);
    assert syms[..j] == syms[..k] + syms[k..j];
    RunConcat(Initial(base), syms[..k], syms[k..j]);
  }

  /** The state after the matching PDI is the state before the initiator if and only if no isolate is refused
      on the way from the initiator to the PDI. */
  lemma IsolateIsTransparentIff(base: int, text: seq<BidiClass>, i: nat, j: nat)
    requires 0 <= base <= 1 && Matches(text, i, j) && AcceptedTo(base, text, i)
    ensures StateAt(base, text, j + 1) == StateAt(base, text, i) <==> AcceptedTo(base, text, j)
  {
    var s, syms := StateAt(base, text, i), Symbols(text);
    InitialExact(base);
    RunExact(base, Initial(base), syms[..i]);
    StateStep(base, text, i);
    SymbolsNet(text, i + 1, j);
    StateFrom(base, text, i + 1, j);
    StateStep(base, text, j);
    IsolateRestoresIff(base, s, syms[i], syms[i + 1..j]);
    AcceptsOnwards(base, text, i, j);
  }

  lemma AcceptsOnwards(base: int, text: seq<BidiClass>, i: nat, j: nat)
    requires i < j <= |text|
    ensures AcceptedTo(base, text, j) <==>
      && AcceptedTo(base, text, i)
      && !RefusesIsolate(StateAt(base, text, i), Symbols(text)[i])
      && AcceptsIsolates(StateAt(base, text, i + 1), Symbols(text)[i + 1..j])
  {
    var syms := Symbols(text);
    assert syms[..j] == syms[..i + 1] + syms[i + 1..j] && syms[..i + 1][..i] == syms[..i];
    AcceptsPrefix(Initial(base), syms[..i + 1], syms[i + 1..j]);
  }

  lemma IsolateIsTransparent(base: int, text: seq<BidiClass>, i: nat, j: nat)
    requires 0 <= base <= 1 && Matches(text, i, j) && AcceptedTo(base, text, j)
    ensures StateAt(base, text, j + 1) == StateAt(base, text, i)
  {
    AcceptsOnwards(base, text, i, j);
    IsolateIsTransparentIff(base, text, i, j);
  }

  /** An initiator and its matching PDI get the same level and the same override. */
  lemma IsolateEndsAgree(base: int, text: seq<BidiClass>, i: nat, j: nat)
    requires 0 <= base <= 1 && Matches(text, i, j) && AcceptedTo(base, text, j)
    ensures ExplicitLevel(base, text, i) == ExplicitLevel(base, text, j)
    ensures StateFor(base, text, i) == StateFor(base, text, j)
  {
    IsolateIsTransparent(base, text, i, j);
  }

  /** The texts differ at most between the initiator at `i` and its matching PDI. */
  ghost predicate SameOutside(text: seq<BidiClass>, i: nat, j: nat, text': seq<BidiClass>, j': nat) {
    && Matches(text, i, j) && Matches(text', i, j')
    && text[..i + 1] == text'[..i + 1]
    && text[j..] == text'[j'..]
  }

  lemma SplitAtIsolate(text: seq<BidiClass>, i: nat, j: nat, k: nat)
    requires Matches(text, i, j) && k <= i
    ensures text[k..] == text[k..i] + [text[i]] + text[i + 1..j] + [PopDirectionalIsolate] + text[j + 1..]
  {
  }

  lemma SameSlice(a: seq<BidiClass>, b: seq<BidiClass>, n: nat, x: nat, y: nat)
    requires x <= y <= n <= |a| && n <= |b| && a[..n] == b[..n]
    ensures a[x..y] == b[x..y] && forall k {:trigger a[k]} {:trigger b[k]} :: 0 <= k < n ==> a[k] == b[k]
  {
    forall k {:trigger a[k]} {:trigger b[k]} | 0 <= k < n ensures a[k] == b[k] {
      assert a[k] == a[..n][k] && b[k] == b[..n][k];
    }
    forall k | 0 <= k < y - x ensures a[x..y][k] == b[x..y][k] {
      assert a[x..y][k] == a[x + k] && b[x..y][k] == b[x + k];
    }
  }

  lemma SameTailAt(text: seq<BidiClass>, q: nat, text': seq<BidiClass>, q': nat, m: nat)
    requires q + m < |text| && q' <= |text'| && text[q..] == text'[q'..]
    ensures q' + m < |text'| && text[q + m] == text'[q' + m]
  {
    assert text[q..][m] == text[q + m];
  }

  lemma SameSymbolBefore(text: seq<BidiClass>, i: nat, j: nat, text': seq<BidiClass>, j': nat, k: nat)
    requires SameOutside(text, i, j, text', j') && k < i
    ensures SymbolAt(text, k) == SymbolAt(text', k)
  {
    SplitAtIsolate(text, i, j, k + 1);
    SplitAtIsolate(text', i, j', k + 1);
    SameSlice(text, text', i + 1, k + 1, i);
    SameTail(text, j, text', j');
    ContentHidden(text[k + 1..i], text[i], text[i + 1..j], text'[i + 1..j'], text[j + 1..], true, LTR, 0);
  }

  lemma SameStateBefore(base: int, text: seq<BidiClass>, i: nat, j: nat, text': seq<BidiClass>, j': nat, k: nat)
    requires SameOutside(text, i, j, text', j') && k <= i
    ensures StateAt(base, text, k) == StateAt(base, text', k)
  {
    var a, b := Symbols(text)[..k], Symbols(text')[..k];
    forall m {:trigger a[m]} | 0 <= m < k ensures a[m] == b[m] {
      SameSymbolBefore(text, i, j, text', j', m);
    }
    assert a == b;
  }

  lemma SameSymbolsAfter(text: seq<BidiClass>, j: nat, text': seq<BidiClass>, j': nat, m: nat)
    requires j <= |text| && j' <= |text'| && text[j..] == text'[j'..] && j + m <= |text|
    ensures j' + m <= |text'| && Symbols(text)[j..j + m] == Symbols(text')[j'..j' + m]
  {
    assert |text[j..]| == |text'[j'..]|;
    var a, b := Symbols(text)[j..j + m], Symbols(text')[j'..j' + m];
    forall l {:trigger a[l]} | 0 <= l < m ensures a[l] == b[l] {
      assert text[j + l] == text[j..][l] == text'[j' + l];
      assert text[j + l + 1..] == text[j..][l + 1..] == text'[j' + l + 1..];
    }
  }

  /** From equal states on, equal symbols lead to equal states. */
  lemma RunAlike(s: XState, a: seq<BidiClass>, q: nat, b: seq<BidiClass>, q': nat, m: nat)
    requires q + m <= |a| && q' + m <= |b|
    requires Run(s, a[..q]) == Run(s, b[..q']) && a[q..q + m] == b[q'..q' + m]
    ensures Run(s, a[..q + m]) == Run(s, b[..q' + m])
  {
    assert a[..q + m] == a[..q] + a[q..q + m] && b[..q' + m] == b[..q'] + b[q'..q' + m];
    RunConcat(s, a[..q], a[q..q + m]);
    RunConcat(s, b[..q'], b[q'..q' + m]);
  }

  lemma SameStateAtEnd(base: int, text: seq<BidiClass>, i: nat, j: nat, text': seq<BidiClass>, j': nat)
    requires 0 <= base <= 1 && SameOutside(text, i, j, text', j')
    requires AcceptedTo(base, text, j) && AcceptedTo(base, text', j')
    ensures StateAt(base, text, j + 1) == StateAt(base, text', j' + 1)
  {
    IsolateIsTransparent(base, text, i, j);
    IsolateIsTransparent(base, text', i, j');
    SameStateBefore(base, text, i, j, text', j', i);
  }

  lemma SameTail(text: seq<BidiClass>, j: nat, text': seq<BidiClass>, j': nat)
    requires j < |text| && j' < |text'| && text[j..] == text'[j'..]
    ensures |text| - j == |text'| - j' && text[j + 1..] == text'[j' + 1..]
  {
  }

  /** From equal states on, equal tails run alike. */
  lemma TailsRunAlike(base: int, text: seq<BidiClass>, q: nat, text': seq<BidiClass>, q': nat, m: nat)
    requires q + m <= |text| && q' <= |text'| && text[q..] == text'[q'..]
    requires StateAt(base, text, q) == StateAt(base, text', q')
    ensures q' + m <= |text'| && StateAt(base, text, q + m) == StateAt(base, text', q' + m)
  {
    SameSymbolsAfter(text, q, text', q', m);
    RunAlike(Initial(base), Symbols(text), q, Symbols(text'), q', m);
  }

  ghost predicate SameExplicit(base: int, text: seq<BidiClass>, k: nat, text': seq<BidiClass>, k': nat) {
    && k < |text| && k' < |text'|
    && ExplicitLevel(base, text, k) == ExplicitLevel(base, text', k')
    && ExplicitClass(base, text, k) == ExplicitClass(base, text', k')
  }

  lemma SameStateForBefore(base: int, text: seq<BidiClass>, i: nat, j: nat, text': seq<BidiClass>, j': nat,
                           k: nat)
    requires SameOutside(text, i, j, text', j') && k <= i
    ensures k < |text'| && text[k] == text'[k] && StateFor(base, text, k) == StateFor(base, text', k)
  {
    assert text[k] == text[..i + 1][k] == text'[k];
    SameStateBefore(base, text, i, j, text', j', k);
    if k < i {
      SameStateBefore(base, text, i, j, text', j', k + 1);
    }
  }

  lemma SameStateForTail(base: int, text: seq<BidiClass>, q: nat, text': seq<BidiClass>, q': nat, m: nat)
    requires q + m < |text| && q' <= |text'| && text[q..] == text'[q'..]
    requires StateAt(base, text, q) == StateAt(base, text', q')
    ensures q' + m < |text'| && text[q + m] == text'[q' + m]
    ensures StateFor(base, text, q + m) == StateFor(base, text', q' + m)
  {
    TailsRunAlike(base, text, q, text', q', m);
    TailsRunAlike(base, text, q, text', q', m + 1);
    SameTailAt(text, q, text', q', m);
  }

  lemma SameStateForLater(base: int, text: seq<BidiClass>, j: nat, text': seq<BidiClass>, j': nat, m: nat)
    requires 0 < m && j + m < |text| && j' < |text'| && text[j..] == text'[j'..]
    requires StateAt(base, text, j + 1) == StateAt(base, text', j' + 1)
    ensures j' + m < |text'| && text[j + m] == text'[j' + m]
    ensures StateFor(base, text, j + m) == StateFor(base, text', j' + m)
  {
    SameTail(text, j, text', j');
    SameStateForTail(base, text, j + 1, text', j' + 1, m - 1);
  }

  lemma SamePdiState(base: int, text: seq<BidiClass>, j: nat, text': seq<BidiClass>, j': nat)
    requires j < |text| && j' < |text'| && text[j].PopDirectionalIsolate? && text'[j'].PopDirectionalIsolate?
    requires StateAt(base, text, j + 1) == StateAt(base, text', j' + 1)
    ensures StateFor(base, text, j) == StateFor(base, text', j')
  {
    PdiState(base, text, j);
    PdiState(base, text', j');
  }

  lemma PdiState(base: int, text: seq<BidiClass>, j: nat)
    requires j < |text| && text[j].PopDirectionalIsolate?
    ensures StateFor(base, text, j) == StateAt(base, text, j + 1)
  {
  }

  lemma SameStateForExplicit(base: int, text: seq<BidiClass>, k: nat, text': seq<BidiClass>, k': nat)
    requires k < |text| && k' < |text'| && text[k] == text'[k']
    requires StateFor(base, text, k) == StateFor(base, text', k')
    ensures SameExplicit(base, text, k, text', k')
  {
  }

  /** Replacing the content of an isolate changes no explicit level and no class up to and including
      the initiator. */
  lemma NoInterferenceBefore(base: int, text: seq<BidiClass>, i: nat, j: nat, text': seq<BidiClass>, j': nat,
                             k: nat)
    requires SameOutside(text, i, j, text', j') && k <= i
    ensures SameExplicit(base, text, k, text', k)
  {
    SameStateForBefore(base, text, i, j, text', j', k);
    SameStateForExplicit(base, text, k, text', k);
  }

  lemma SameAtPdi(base: int, text: seq<BidiClass>, j: nat, text': seq<BidiClass>, j': nat)
    requires j < |text| && j' < |text'| && text[j].PopDirectionalIsolate? && text'[j'].PopDirectionalIsolate?
    requires StateAt(base, text, j + 1) == StateAt(base, text', j' + 1)
    ensures SameExplicit(base, text, j, text', j')
  {
    SamePdiState(base, text, j, text', j');
    SameStateForExplicit(base, text, j, text', j');
  }

  lemma SameAfterPdi(base: int, text: seq<BidiClass>, j: nat, text': seq<BidiClass>, j': nat, m: nat)
    requires 0 < m && j + m < |text| && j' < |text'| && text[j..] == text'[j'..]
    requires StateAt(base, text, j + 1) == StateAt(base, text', j' + 1)
    ensures SameExplicit(base, text, j + m, text', j' + m)
  {
    SameStateForLater(base, text, j, text', j', m);
    SameStateForExplicit(base, text, j + m, text', j' + m);
  }

  /** Replacing the content of an isolate changes no explicit level and no class from its matching
      PDI on, whatever comes after the PDI. */
  lemma NoInterferenceAfter(base: int, text: seq<BidiClass>, i: nat, j: nat, text': seq<BidiClass>, j': nat,
                            m: nat)
    requires 0 <= base <= 1 && SameOutside(text, i, j, text', j') && j + m < |text|
    requires AcceptedTo(base, text, j) && AcceptedTo(base, text', j')
    ensures SameExplicit(base, text, j + m, text', j' + m)
  {
    SameStateAtEnd(base, text, i, j, text', j');
    if m == 0 {
      SameAtPdi(base, text, j, text', j');
    } else {
      SameAfterPdi(base, text, j, text', j', m);
    }
  }
}
