/** The chains of two texts that differ in the content of one isolate: they show the same characters outside
    it, between the same sides. */
module IsolatedChains {
  import opened BidiTypes
  import opened ParagraphLevels
  import opened OpenIsolates
  import opened IsolatePairs
  import opened LevelRuns
  import opened Chains
  import opened TextChains
  import opened WeakTypes
  import opened ChainRules
  import opened Resolution
  import opened IsolatingSequences
  import opened RemovedCharacters
  import opened ReplacedContent

  /** A text with its levels and its chains, which are the sequences of BD13. */
  datatype ChainedText = ChainedText(base: int, text: seq<BidiClass>, x: seq<int>, runs: seq<LevelRun>, upto: nat,
                                     sqs: seq<RunSequence>)
  {
    ghost predicate Valid() {
      IsolatesLift(text, x) && NothingSplit(text, x) && Sequencing(base, text, x, runs, upto, sqs)
    }
  }

  /** Two of them that differ in the content of one isolate. */
  ghost predicate Twins(a: ChainedText, i: nat, j: nat, b: ChainedText, j': nat) {
    a.Valid() && b.Valid() && a.base == b.base && Replaced(a.text, a.x, i, j, b.text, b.x, j')
  }

  lemma TwinsBack(a: ChainedText, i: nat, j: nat, b: ChainedText, j': nat)
    requires Twins(a, i, j, b, j')
    ensures Twins(b, i, j', a, j)
  {
    ReplacedBack(a.text, a.x, i, j, b.text, b.x, j');
  }

  // ---------------------------------------------------------------- the visible characters of a chain

  /** The visible positions `vis` of a chain, and their ranks. */
  ghost predicate Shows(a: ChainedText, s: nat, n: seq<nat>, vis: seq<nat>) {
    && s < |a.sqs| && ChainsOf(a.sqs, |a.x|)
    && Kept(a.sqs[s].indices, Gather(a.x, a.sqs[s].indices), n, vis)
  }

  lemma ShownChain(a: ChainedText, s: nat) returns (n: seq<nat>, vis: seq<nat>)
    requires a.Valid() && s < |a.sqs|
    ensures Shows(a, s, n, vis)
  {
    ChainsAreDisjoint(a.text, a.x, a.base, a.runs, a.upto, a.sqs);
    n, vis := DropRemoved(a.sqs[s].indices, Gather(a.x, a.sqs[s].indices));
  }

  /** Every position in the list is a visible one of the chain. */
  lemma ShownAt(a: ChainedText, s: nat, n: seq<nat>, vis: seq<nat>, m: nat) returns (k: nat)
    requires Shows(a, s, n, vis) && m < |vis|
    ensures k < |a.sqs[s].indices| && a.sqs[s].indices[k] == vis[m] < |a.x| && n[k] == m && Visible(a.x[vis[m]])
  {
    var idx := a.sqs[s].indices;
    var lv := Gather(a.x, idx);
    k := RankTaken(lv, n, |lv|, m);
    assert vis[n[k]] == idx[k];
  }

  /** And every visible position of the chain is in the list. */
  lemma ShownMember(a: ChainedText, s: nat, n: seq<nat>, vis: seq<nat>, q: nat) returns (k: nat)
    requires Shows(a, s, n, vis) && q < |a.x| && q in a.sqs[s].indices && Visible(a.x[q])
    ensures k < |a.sqs[s].indices| && a.sqs[s].indices[k] == q && n[k] < |vis| && vis[n[k]] == q
  {
    var idx := a.sqs[s].indices;
    k :| 0 <= k < |idx| && idx[k] == q;
    assert Gather(a.x, idx)[k] == a.x[q];
  }

  lemma ShownAscends(a: ChainedText, s: nat, n: seq<nat>, vis: seq<nat>)
    requires Shows(a, s, n, vis)
    ensures Ascending(vis) && InBounds(vis, |a.x|)
  {
    var idx := a.sqs[s].indices;
    forall l, m {:trigger vis[l], vis[m]} | 0 <= l < m < |vis| ensures vis[l] < vis[m] {
      var k := ShownAt(a, s, n, vis, l);
      var k' := ShownAt(a, s, n, vis, m);
      RankOrder(Gather(a.x, idx), n, k, k');
      assert idx[k] < idx[k'];
    }
    forall m {:trigger vis[m]} | 0 <= m < |vis| ensures vis[m] < |a.x| {
      var k := ShownAt(a, s, n, vis, m);
    }
  }

  // ---------------------------------------------------------------- corresponding chains

  lemma ChainsAreSequences(a: ChainedText)
    requires a.Valid()
    ensures MeetsBD13(a.text, a.x, a.sqs)
  {
    UnsplitMeetsBD13(a.text, a.x, a.base, a.runs, a.upto, a.sqs);
  }

  lemma SameChain(a: ChainedText, s: nat, p: nat, q: nat)
    requires a.Valid() && s < |a.sqs| && p in a.sqs[s].indices && q in a.sqs[s].indices
    requires p < |a.x| && q < |a.x| && Visible(a.x[p]) && Visible(a.x[q])
    ensures SameSequence(a.text, a.x, p, q)
  {
    ChainsAreSequences(a);
    assert InOneChain(a.sqs, p, q);
  }

  lemma InChain(a: ChainedText, s: nat, p: nat, q: nat)
    requires a.Valid() && s < |a.sqs| && p in a.sqs[s].indices
    requires p < |a.x| && q < |a.x| && Visible(a.x[p]) && Visible(a.x[q])
    requires SameSequence(a.text, a.x, p, q)
    ensures q in a.sqs[s].indices
  {
    ChainsAreSequences(a);
    assert InOneChain(a.sqs, p, q);
    var t :| 0 <= t < |a.sqs| && p in a.sqs[t].indices && q in a.sqs[t].indices;
    OneChainEach(a, s, t, p);
  }

  lemma OneChainEach(a: ChainedText, s: nat, t: nat, p: nat)
    requires a.Valid() && s < |a.sqs| && t < |a.sqs| && p in a.sqs[s].indices && p in a.sqs[t].indices
    ensures s == t
  {
    DifferentChains(a.text, a.x, a.base, a.runs, a.upto, a.sqs, s, t, p);
  }

  /** What is in the chain of a character outside is outside, and in its chain in the other text. */
  lemma MemberMoved(a: ChainedText, i: nat, j: nat, b: ChainedText, j': nat, s: nat, s': nat, p: nat, q: nat)
    requires Twins(a, i, j, b, j') && s < |a.sqs| && s' < |b.sqs|
    requires p < |a.x| && Outside(i, j, p) && Visible(a.x[p]) && q < |a.x| && Visible(a.x[q])
    requires p in a.sqs[s].indices && Shift(i, j, j', p) in b.sqs[s'].indices && q in a.sqs[s].indices
    ensures Outside(i, j, q) && Shift(i, j, j', q) in b.sqs[s'].indices
    ensures Shift(i, j, j', q) < |b.x| && b.x[Shift(i, j, j', q)] == a.x[q]
  {
    SameChain(a, s, p, q);
    SequenceMoved(a.text, a.x, i, j, b.text, b.x, j', p, q);
    assert b.x[Shift(i, j, j', p)] == a.x[p] && b.x[Shift(i, j, j', q)] == a.x[q];
    InChain(b, s', Shift(i, j, j', p), Shift(i, j, j', q));
  }

  /** Ascending lists of the same numbers are equal. */
  lemma {:induction false} SameAscending(v: seq<nat>, w: seq<nat>)
    requires Ascending(v) && Ascending(w) && SameMembers(v, w)
    ensures v == w
    decreases |v|
  {
    FirstIn(v);
    FirstIn(w);
    if v != [] && w != [] {
      var l, m := |v| - 1, |w| - 1;
      FrontsAgree(v, w);
      SameAscending(v[..l], w[..m]);
      assert v == v[..l] + [v[l]] && w == w[..m] + [w[m]];
    }
  }

  ghost predicate SameMembers(v: seq<nat>, w: seq<nat>) {
    forall q: nat {:trigger q in v} {:trigger q in w} :: q in v <==> q in w
  }

  lemma FirstIn(v: seq<nat>)
    ensures v == [] || v[0] in v
  {
  }

  lemma InFront(v: seq<nat>, q: nat)
    requires Ascending(v) && v != []
    ensures q in v[..|v| - 1] <==> q in v && q != v[|v| - 1]
  {
    if q in v && q != v[|v| - 1] {
      var k :| 0 <= k < |v| && v[k] == q;
      assert v[..|v| - 1][k] == q;
    }
  }

  lemma LastAgrees(v: seq<nat>, w: seq<nat>)
    requires Ascending(v) && Ascending(w) && v != [] && w != [] && SameMembers(v, w)
    ensures v[|v| - 1] == w[|w| - 1]
  {
    var l, m := |v| - 1, |w| - 1;
    assert v[l] in w && w[m] in v;
    var k :| 0 <= k < |w| && w[k] == v[l];
    var k' :| 0 <= k' < |v| && v[k'] == w[m];
    assert w[k] <= w[m] && v[k'] <= v[l];
  }

  lemma FrontsAgree(v: seq<nat>, w: seq<nat>)
    requires Ascending(v) && Ascending(w) && v != [] && w != [] && SameMembers(v, w)
    ensures v[|v| - 1] == w[|w| - 1] && SameMembers(v[..|v| - 1], w[..|w| - 1])
    ensures Ascending(v[..|v| - 1]) && Ascending(w[..|w| - 1])
  {
    var front, front' := v[..|v| - 1], w[..|w| - 1];
    LastAgrees(v, w);
    forall q: nat {:trigger q in front} {:trigger q in front'} ensures q in front <==> q in front' {
      InFront(v, q);
      InFront(w, q);
      assert q in v <==> q in w;
    }
  }

  /** The same visible characters. */
  ghost predicate Moved(i: nat, j: nat, vis: seq<nat>, j': nat, vis': seq<nat>) {
    && |vis| == |vis'|
    && forall m {:trigger vis[m]} {:trigger vis'[m]} :: 0 <= m < |vis| ==>
         Outside(i, j, vis[m]) && vis'[m] == Shift(i, j, j', vis[m])
  }

  /** Chain `s` of one text shows nothing but what chain `t` of the other shows. */
  ghost predicate MembersMoved(a: ChainedText, i: nat, j: nat, b: ChainedText, j': nat, s: nat, t: nat) {
    && s < |a.sqs| && t < |b.sqs|
    && forall q: nat {:trigger a.x[q]} :: q < |a.x| && Visible(a.x[q]) && q in a.sqs[s].indices ==>
         && Outside(i, j, q) && Shift(i, j, j', q) in b.sqs[t].indices
         && Shift(i, j, j', q) < |b.x| && b.x[Shift(i, j, j', q)] == a.x[q]
  }

  lemma MembersMove(a: ChainedText, i: nat, j: nat, b: ChainedText, j': nat, s: nat, t: nat, p: nat)
    requires Twins(a, i, j, b, j') && s < |a.sqs| && t < |b.sqs|
    requires p < |a.x| && Outside(i, j, p) && Visible(a.x[p])
    requires p in a.sqs[s].indices && Shift(i, j, j', p) in b.sqs[t].indices
    ensures MembersMoved(a, i, j, b, j', s, t)
  {
    forall q: nat {:trigger a.x[q]} | q < |a.x| && Visible(a.x[q]) && q in a.sqs[s].indices
      ensures Outside(i, j, q) && Shift(i, j, j', q) in b.sqs[t].indices
      ensures Shift(i, j, j', q) < |b.x| && b.x[Shift(i, j, j', q)] == a.x[q]
    {
      MemberMoved(a, i, j, b, j', s, t, p, q);
    }
  }

  lemma AllMoved(a: ChainedText, i: nat, j: nat, b: ChainedText, j': nat, s: nat, n: seq<nat>, vis: seq<nat>,
                 t: nat, n': seq<nat>, vis': seq<nat>) returns (shifted: seq<nat>)
    requires i < j && Shows(a, s, n, vis) && Shows(b, t, n', vis') && MembersMoved(a, i, j, b, j', s, t)
    ensures Moved(i, j, vis, j', shifted)
    ensures forall q {:trigger q in shifted} :: q in shifted ==> q in vis'
  {
    forall m {:trigger vis[m]} | 0 <= m < |vis|
      ensures Outside(i, j, vis[m]) && Shift(i, j, j', vis[m]) in vis'
    {
      var k := ShownAt(a, s, n, vis, m);
      k := ShownMember(b, t, n', vis', Shift(i, j, j', vis[m]));
    }
    shifted := seq(|vis|, m requires 0 <= m < |vis| => Shift(i, j, j', vis[m]));
  }

  lemma ShiftAscends(i: nat, j: nat, vis: seq<nat>, j': nat, shifted: seq<nat>)
    requires i < j && i < j' && Ascending(vis) && Moved(i, j, vis, j', shifted)
    ensures Ascending(shifted)
  {
  }

  lemma ShiftBack(i: nat, j: nat, j': nat, p: nat)
    requires i < j && i < j' && Outside(i, j, p)
    ensures Outside(i, j', Shift(i, j, j', p)) && Shift(i, j', j, Shift(i, j, j', p)) == p
  {
  }

  /** The chains of a character outside show the same characters in both texts. */
  lemma ChainMoved(a: ChainedText, i: nat, j: nat, b: ChainedText, j': nat, s: nat, n: seq<nat>, vis: seq<nat>,
                   t: nat, n': seq<nat>, vis': seq<nat>, p: nat)
    requires Twins(a, i, j, b, j') && Shows(a, s, n, vis) && Shows(b, t, n', vis')
    requires p < |a.x| && Outside(i, j, p) && Visible(a.x[p])
    requires p in a.sqs[s].indices && Shift(i, j, j', p) in b.sqs[t].indices
    ensures Moved(i, j, vis, j', vis')
  {
    MembersMove(a, i, j, b, j', s, t, p);
    TwinsBack(a, i, j, b, j');
    ShiftBack(i, j, j', p);
    assert b.x[Shift(i, j, j', p)] == a.x[p];
    MembersMove(b, i, j', a, j, t, s, Shift(i, j, j', p));
    MovedBothWays(a, i, j, b, j', s, n, vis, t, n', vis');
  }

  lemma MovedBothWays(a: ChainedText, i: nat, j: nat, b: ChainedText, j': nat, s: nat, n: seq<nat>, vis: seq<nat>,
                      t: nat, n': seq<nat>, vis': seq<nat>)
    requires i < j && i < j' && Shows(a, s, n, vis) && Shows(b, t, n', vis')
    requires MembersMoved(a, i, j, b, j', s, t) && MembersMoved(b, i, j', a, j, t, s)
    ensures Moved(i, j, vis, j', vis')
  {
    var there := AllMoved(a, i, j, b, j', s, n, vis, t, n', vis');
    var back := AllMoved(b, i, j', a, j, t, n', vis', s, n, vis);
    ShownAscends(a, s, n, vis);
    ShownAscends(b, t, n', vis');
    ShiftAscends(i, j, vis, j', there);
    forall q: nat {:trigger q in there} {:trigger q in vis'} ensures q in there <==> q in vis' {
      if q in vis' {
        BackAndThere(i, j, vis, there, j', vis', back, q);
      }
    }
    SameAscending(there, vis');
  }

  lemma BackAndThere(i: nat, j: nat, vis: seq<nat>, there: seq<nat>, j': nat, vis': seq<nat>, back: seq<nat>, q: nat)
    requires i < j && i < j' && Moved(i, j, vis, j', there) && Moved(i, j', vis', j, back)
    requires forall q {:trigger q in back} :: q in back ==> q in vis
    requires q in vis'
    ensures q in there
  {
    var m :| 0 <= m < |vis'| && vis'[m] == q;
    assert back[m] in back;
    var l :| 0 <= l < |vis| && vis[l] == back[m];
    ShiftBack(i, j', j, q);
    assert there[l] == q;
  }

  // ---------------------------------------------------------------- the first and the last run of a chain

  lemma RunsOrdered(text: seq<BidiClass>, x: seq<int>, runs: seq<LevelRun>, upto: nat, c: nat, d: nat)
    requires Tiles(text, x, runs, upto) && c <= d < |runs|
    ensures runs[c].start <= runs[d].start && runs[c].end <= runs[d].end
  {
    RunBounds(text, x, runs, upto, c, d);
    RunBounds(text, x, runs, upto, d, d);
  }

  lemma AscendingEnds(idxs: seq<nat>, p: nat)
    requires Ascending(idxs) && p < |idxs|
    ensures idxs[0] <= idxs[p] <= idxs[|idxs| - 1]
  {
  }

  /** The positions of ascending runs stand between the start of the first run and the end of the last. */
  lemma SpanOfChain(text: seq<BidiClass>, x: seq<int>, runs: seq<LevelRun>, upto: nat, idxs: seq<nat>, k: nat)
    requires Tiles(text, x, runs, upto) && RunsExist(runs, idxs) && Ascending(idxs) && k in ChainIndices(runs, idxs)
    ensures idxs != [] && runs[idxs[0]].start <= k < runs[idxs[|idxs| - 1]].end
  {
    ChainMembers(runs, idxs, k);
    var p :| 0 <= p < |idxs| && runs[idxs[p]].start <= k < runs[idxs[p]].end;
    AscendingEnds(idxs, p);
    RunsOrdered(text, x, runs, upto, idxs[0], idxs[p]);
    RunsOrdered(text, x, runs, upto, idxs[p], idxs[|idxs| - 1]);
  }

  /** The run shows something, and all that it shows is in the chain. */
  ghost predicate ChainHasRun(x: seq<int>, indices: seq<nat>, run: LevelRun) {
    && run.start < run.end <= |x|
    && (exists k {:trigger x[k]} :: run.start <= k < run.end && Visible(x[k]))
    && forall k: nat {:trigger k in indices} :: run.start <= k < run.end ==> k in indices
  }

  lemma ChainHasEach(text: seq<BidiClass>, x: seq<int>, runs: seq<LevelRun>, upto: nat, idxs: seq<nat>, p: nat,
                     run: LevelRun)
    requires Tiles(text, x, runs, upto) && RunsExist(runs, idxs) && p < |idxs| && run == runs[idxs[p]]
    ensures ChainHasRun(x, ChainIndices(runs, idxs), run)
  {
    RunBounds(text, x, runs, upto, idxs[p], idxs[p]);
    var v := VisibleIn(text, x, run);
    forall k: nat {:trigger k in ChainIndices(runs, idxs)} | run.start <= k < run.end
      ensures k in ChainIndices(runs, idxs)
    {
      assert InRunOf(runs, idxs, k);
      ChainMembers(runs, idxs, k);
    }
  }

  /** An initiator is visible and the last character of its run. */
  ghost predicate InitEnds(text: seq<BidiClass>, x: seq<int>, run: LevelRun) {
    && run.start < run.end <= |x| == |text|
    && forall k {:trigger text[k]} :: run.start <= k < run.end && text[k].IsIsoInit() ==>
         Visible(x[k]) && run.end == k + 1
  }

  lemma InitEndsRun(text: seq<BidiClass>, x: seq<int>, runs: seq<LevelRun>, upto: nat, r: nat, run: LevelRun)
    requires IsolateLevels(text, x) && LevelRunsOf(text, x, runs, upto) && r < |runs| && run == runs[r]
    ensures InitEnds(text, x, run)
  {
    RunBounds(text, x, runs, upto, r, r);
    forall k {:trigger text[k]} | run.start <= k < run.end && text[k].IsIsoInit()
      ensures Visible(x[k]) && run.end == k + 1
    {
      assert Visible(x[k]) <==> !text[k].IsRemovedByX9();
      var q := InitiatorEndsRun(text, x, runs, upto, k);
      TextChains.SameRun(text, x, runs, upto, q, r, k);
    }
  }

  /** What is known of the chain of a sequence from its first and its last run. */
  ghost predicate EndRuns(a: ChainedText, sq: RunSequence, first: LevelRun, last: LevelRun) {
    && ChainHasRun(a.x, sq.indices, first) && ChainHasRun(a.x, sq.indices, last)
    && (forall k {:trigger k in sq.indices} :: k in sq.indices ==> first.start <= k < last.end)
    && InitEnds(a.text, a.x, last)
    && sq.sos == LevelClass(Max(LevelBefore(a.x, a.base, first.start), sq.level))
    && sq.eos == LevelClass(Max(if EndsWithInit(a.text, last) then a.base else LevelAfter(a.x, a.base, last.end),
                                sq.level))
  }

  lemma EndRunsOf(text: seq<BidiClass>, x: seq<int>, base: int, runs: seq<LevelRun>, upto: nat, sq: RunSequence,
                  a: ChainedText, first: LevelRun, last: LevelRun)
    requires a.text == text && a.x == x && a.base == base && |text| == |x|
    requires Tiles(text, x, runs, upto) && RunsExist(runs, sq.runs) && Ascending(sq.runs)
    requires sq.indices == ChainIndices(runs, sq.runs) && HasSides(text, base, runs, sq)
    requires first == runs[sq.runs[0]] && last == runs[LastRun(sq)] && HasEnds(x, base, first) && HasEnds(x, base, last)
    requires first.level == last.level == sq.level && InitEnds(text, x, last)
    ensures EndRuns(a, sq, first, last)
  {
    ChainHasEach(text, x, runs, upto, sq.runs, 0, first);
    ChainHasEach(text, x, runs, upto, sq.runs, |sq.runs| - 1, last);
    forall k {:trigger k in sq.indices} | k in sq.indices ensures first.start <= k < last.end {
      SpanOfChain(text, x, runs, upto, sq.runs, k);
    }
  }

  lemma RunsKnown(a: ChainedText, s: nat)
    requires a.Valid() && s < |a.sqs|
    ensures |a.text| == |a.x| && Tiles(a.text, a.x, a.runs, a.upto)
    ensures RunsExist(a.runs, a.sqs[s].runs) && a.sqs[s].indices == ChainIndices(a.runs, a.sqs[s].runs)
    ensures Ascending(a.sqs[s].runs) && HasSides(a.text, a.base, a.runs, a.sqs[s])
  {
    SequenceAscending(a.text, a.x, a.runs, a.sqs, s);
  }

  lemma RunEnds(a: ChainedText, s: nat, p: nat, run: LevelRun)
    requires a.Valid() && s < |a.sqs| && p < |a.sqs[s].runs| && a.sqs[s].runs[p] < |a.runs|
    requires run == a.runs[a.sqs[s].runs[p]]
    ensures HasEnds(a.x, a.base, run) && run.level == a.sqs[s].level
  {
    assert Linked(a.text, a.x, a.runs, a.sqs[s], s);
  }

  lemma ChainEndRuns(a: ChainedText, s: nat) returns (first: LevelRun, last: LevelRun)
    requires a.Valid() && s < |a.sqs|
    ensures EndRuns(a, a.sqs[s], first, last)
  {
    RunsKnown(a, s);
    first, last := a.runs[a.sqs[s].runs[0]], a.runs[LastRun(a.sqs[s])];
    InitEndsRun(a.text, a.x, a.runs, a.upto, LastRun(a.sqs[s]), last);
    RunEnds(a, s, 0, first);
    RunEnds(a, s, |a.sqs[s].runs| - 1, last);
    EndRunsOf(a.text, a.x, a.base, a.runs, a.upto, a.sqs[s], a, first, last);
  }

  // ---------------------------------------------------------------- sos and eos

  lemma {:induction false} BeforeFlat(x: seq<int>, base: int, a: nat, b: nat)
    requires a <= b <= |x| && forall k {:trigger x[k]} :: a <= k < b ==> !Visible(x[k])
    ensures LevelBefore(x, base, a) == LevelBefore(x, base, b)
    decreases b
  {
    if a < b {
      BeforeFlat(x, base, a, b - 1);
    }
  }

  lemma {:induction false} AfterFlat(x: seq<int>, base: int, a: nat, b: nat)
    requires a <= b <= |x| && forall k {:trigger x[k]} :: a <= k < b ==> !Visible(x[k])
    ensures LevelAfter(x, base, a) == LevelAfter(x, base, b)
    decreases b - a
  {
    if a < b {
      AfterFlat(x, base, a + 1, b);
    }
  }

  /** The visible positions of a chain, ascending. */
  ghost predicate ListsShown(x: seq<int>, indices: seq<nat>, vis: seq<nat>) {
    && Ascending(vis) && InBounds(vis, |x|)
    && (forall m {:trigger vis[m]} :: 0 <= m < |vis| ==> vis[m] in indices && Visible(x[vis[m]]))
    && forall k: nat {:trigger k in indices} :: k < |x| && k in indices && Visible(x[k]) ==> k in vis
  }

  lemma ShowsLists(a: ChainedText, s: nat, n: seq<nat>, vis: seq<nat>)
    requires Shows(a, s, n, vis)
    ensures ListsShown(a.x, a.sqs[s].indices, vis)
  {
    ShownAscends(a, s, n, vis);
    forall m {:trigger vis[m]} | 0 <= m < |vis| ensures vis[m] in a.sqs[s].indices && Visible(a.x[vis[m]]) {
      var k := ShownAt(a, s, n, vis, m);
    }
    forall k: nat {:trigger k in a.sqs[s].indices} | k < |a.x| && k in a.sqs[s].indices && Visible(a.x[k])
      ensures k in vis
    {
      var l := ShownMember(a, s, n, vis, k);
    }
  }

  /** The first visible character of a chain is that of its first run. */
  lemma FirstShown(a: ChainedText, sq: RunSequence, first: LevelRun, last: LevelRun, vis: seq<nat>)
    requires EndRuns(a, sq, first, last) && ListsShown(a.x, sq.indices, vis)
    ensures vis != [] && first.start <= vis[0] < first.end
    ensures forall k {:trigger a.x[k]} :: first.start <= k < vis[0] ==> !Visible(a.x[k])
  {
    var v: nat :| first.start <= v < first.end && Visible(a.x[v]);
    assert v in sq.indices;
    assert v in vis;
    forall k {:trigger a.x[k]} | first.start <= k < vis[0] ensures !Visible(a.x[k]) {
      assert k in sq.indices;
    }
  }

  lemma LastShown(a: ChainedText, sq: RunSequence, first: LevelRun, last: LevelRun, vis: seq<nat>)
    requires EndRuns(a, sq, first, last) && ListsShown(a.x, sq.indices, vis)
    ensures vis != [] && last.start <= vis[|vis| - 1] < last.end
    ensures forall k {:trigger a.x[k]} :: vis[|vis| - 1] < k < last.end ==> !Visible(a.x[k])
  {
    var v: nat :| last.start <= v < last.end && Visible(a.x[v]);
    assert v in sq.indices;
    assert v in vis;
    forall k {:trigger a.x[k]} | vis[|vis| - 1] < k < last.end ensures !Visible(a.x[k]) {
      assert k in sq.indices;
    }
  }

  /** sos and eos as the visible characters tell them. */
  ghost predicate SidesTold(a: ChainedText, sq: RunSequence, vis: seq<nat>) {
    && vis != [] && vis[0] < |a.x| && vis[|vis| - 1] < |a.x| == |a.text|
    && sq.sos == LevelClass(Max(LevelBefore(a.x, a.base, vis[0]), sq.level))
    && var l := vis[|vis| - 1];
    && sq.eos == LevelClass(Max(if a.text[l].IsIsoInit() then a.base else LevelAfter(a.x, a.base, l + 1), sq.level))
  }

  lemma SidesAtEnds(a: ChainedText, sq: RunSequence, vis: seq<nat>, first: LevelRun, last: LevelRun)
    requires EndRuns(a, sq, first, last) && ListsShown(a.x, sq.indices, vis)
    ensures SidesTold(a, sq, vis)
  {
    FirstShown(a, sq, first, last, vis);
    LastShown(a, sq, first, last, vis);
    BeforeFlat(a.x, a.base, first.start, vis[0]);
    AfterFlat(a.x, a.base, vis[|vis| - 1] + 1, last.end);
  }

  lemma SidesShown(a: ChainedText, s: nat, n: seq<nat>, vis: seq<nat>)
    requires a.Valid() && Shows(a, s, n, vis)
    ensures SidesTold(a, a.sqs[s], vis)
  {
    var first, last := ChainEndRuns(a, s);
    ShowsLists(a, s, n, vis);
    SidesAtEnds(a, a.sqs[s], vis, first, last);
  }

  // ---------------------------------------------------------------- the same sides

  lemma {:induction false} BeforeMoved(x: seq<int>, i: nat, j: nat, x': seq<int>, j': nat, base: int, k: nat)
    requires AgreeOutside(x, i, j, x', j') && Visible(x[j]) && k <= |x| && (k <= i || j < k)
    ensures LevelBefore(x, base, k) == LevelBefore(x', base, Shift(i, j, j', k))
    decreases k
  {
    if 0 < k {
      assert Outside(i, j, k - 1) ==> x'[Shift(i, j, j', k - 1)] == x[k - 1];
      if k != j + 1 {
        BeforeMoved(x, i, j, x', j', base, k - 1);
      }
    }
  }

  lemma {:induction false} AfterMoved(x: seq<int>, i: nat, j: nat, x': seq<int>, j': nat, base: int, k: nat)
    requires AgreeOutside(x, i, j, x', j') && Visible(x[i]) && k <= |x| && (k <= i || j < k)
    ensures LevelAfter(x, base, k) == LevelAfter(x', base, Shift(i, j, j', k))
    decreases |x| - k
  {
    if k < |x| {
      assert Outside(i, j, k) ==> x'[Shift(i, j, j', k)] == x[k];
      if k != i {
        AfterMoved(x, i, j, x', j', base, k + 1);
      }
    }
  }

  lemma PairTogether(a: ChainedText, i: nat, j: nat, s: nat)
    requires a.Valid() && Matches(a.text, i, j) && s < |a.sqs|
    ensures i in a.sqs[s].indices <==> j in a.sqs[s].indices
  {
    MatchInChain(a.text, a.x, a.base, a.runs, a.upto, a.sqs, i, j);
    var t :| 0 <= t < |a.sqs| && i in a.sqs[t].indices && j in a.sqs[t].indices;
    if i in a.sqs[s].indices {
      OneChainEach(a, s, t, i);
    } else if j in a.sqs[s].indices {
      OneChainEach(a, s, t, j);
    }
  }

  /** No chain starts with a matched PDI or ends with its initiator. */
  lemma EndsApart(a: ChainedText, i: nat, j: nat, s: nat, n: seq<nat>, vis: seq<nat>)
    requires a.Valid() && Matches(a.text, i, j) && Shows(a, s, n, vis) && vis != []
    ensures vis[0] != j && vis[|vis| - 1] != i
  {
    PairTogether(a, i, j, s);
    EndsVisible(a.text, a.x, i, j);
    ShowsLists(a, s, n, vis);
    PairInside(a.x, a.sqs[s].indices, vis, i, j);
  }

  lemma PairInside(x: seq<int>, indices: seq<nat>, vis: seq<nat>, i: nat, j: nat)
    requires ListsShown(x, indices, vis) && i < j < |x| && Visible(x[i]) && Visible(x[j]) && vis != []
    requires i in indices <==> j in indices
    ensures vis[0] != j && vis[|vis| - 1] != i
  {
    assert vis[0] in indices && vis[|vis| - 1] in indices;
    assert i in indices ==> i in vis;
    assert j in indices ==> j in vis;
  }

  /** Chains that show the same characters have the same sides. */
  lemma SidesAlike(a: ChainedText, i: nat, j: nat, b: ChainedText, j': nat, sq: RunSequence, vis: seq<nat>,
                   sq': RunSequence, vis': seq<nat>)
    requires AgreeOutside(a.text, i, j, b.text, j') && AgreeOutside(a.x, i, j, b.x, j') && a.base == b.base
    requires Visible(a.x[i]) && Visible(a.x[j]) && Moved(i, j, vis, j', vis')
    requires SidesTold(a, sq, vis) && SidesTold(b, sq', vis') && sq.level == sq'.level
    requires vis[0] != j && vis[|vis| - 1] != i
    ensures sq.sos == sq'.sos && sq.eos == sq'.eos
  {
    var f, l := vis[0], vis[|vis| - 1];
    assert b.text[Shift(i, j, j', l)] == a.text[l];
    BeforeMoved(a.x, i, j, b.x, j', a.base, f);
    AfterMoved(a.x, i, j, b.x, j', a.base, l + 1);
  }

  lemma ShownLevel(a: ChainedText, s: nat, n: seq<nat>, vis: seq<nat>, m: nat)
    requires a.Valid() && Shows(a, s, n, vis) && m < |vis|
    ensures vis[m] < |a.x| && Visible(a.x[vis[m]]) && a.x[vis[m]] == a.sqs[s].level
  {
    var k := ShownAt(a, s, n, vis, m);
    var r := ChainRun(a.text, a.x, a.base, a.runs, a.upto, a.sqs, s, vis[m]);
  }

  lemma SidesMoved(a: ChainedText, i: nat, j: nat, b: ChainedText, j': nat, s: nat, n: seq<nat>, vis: seq<nat>,
                   t: nat, n': seq<nat>, vis': seq<nat>)
    requires Twins(a, i, j, b, j') && Shows(a, s, n, vis) && Shows(b, t, n', vis') && Moved(i, j, vis, j', vis')
    ensures SameSides(a.sqs[s], b.sqs[t])
  {
    SidesShown(a, s, n, vis);
    SidesShown(b, t, n', vis');
    ShownLevel(a, s, n, vis, 0);
    ShownLevel(b, t, n', vis', 0);
    assert b.x[Shift(i, j, j', vis[0])] == a.x[vis[0]];
    EndsApart(a, i, j, s, n, vis);
    EndsVisible(a.text, a.x, i, j);
    SidesAlike(a, i, j, b, j', a.sqs[s], vis, b.sqs[t], vis');
  }

  // ---------------------------------------------------------------- one chain

  predicate SameSides(sq: RunSequence, sq': RunSequence) {
    sq.sos == sq'.sos && sq.eos == sq'.eos && sq.level == sq'.level
  }

  /** Chains of the two texts with the same visible characters and the same sides. */
  ghost predicate ChainsAlike(a: ChainedText, i: nat, j: nat, b: ChainedText, j': nat, s: nat, n: seq<nat>,
                              vis: seq<nat>, t: nat, n': seq<nat>, vis': seq<nat>)
  {
    && Shows(a, s, n, vis) && Shows(b, t, n', vis')
    && AgreeOutside(a.text, i, j, b.text, j') && AgreeOutside(a.x, i, j, b.x, j')
    && Moved(i, j, vis, j', vis') && SameSides(a.sqs[s], b.sqs[t])
  }

  lemma SharedChain(a: ChainedText, i: nat, j: nat, b: ChainedText, j': nat, p: nat)
    returns (s: nat, n: seq<nat>, vis: seq<nat>, t: nat, n': seq<nat>, vis': seq<nat>)
    requires Twins(a, i, j, b, j') && p < |a.x| && Outside(i, j, p) && Visible(a.x[p])
    ensures ChainsAlike(a, i, j, b, j', s, n, vis, t, n', vis')
    ensures p in a.sqs[s].indices && Shift(i, j, j', p) in b.sqs[t].indices
  {
    assert b.x[Shift(i, j, j', p)] == a.x[p];
    s := VisibleInOneChain(a.text, a.x, a.base, a.runs, a.upto, a.sqs, p);
    t := VisibleInOneChain(b.text, b.x, b.base, b.runs, b.upto, b.sqs, Shift(i, j, j', p));
    n, vis := ShownChain(a, s);
    n', vis' := ShownChain(b, t);
    ChainMoved(a, i, j, b, j', s, n, vis, t, n', vis', p);
    SidesMoved(a, i, j, b, j', s, n, vis, t, n', vis');
  }

  lemma GatherMoved<T>(u: seq<T>, i: nat, j: nat, u': seq<T>, j': nat, vis: seq<nat>, vis': seq<nat>)
    requires AgreeOutside(u, i, j, u', j') && Moved(i, j, vis, j', vis') && InBounds(vis, |u|) && InBounds(vis', |u'|)
    ensures Gather(u, vis) == Gather(u', vis')
  {
    forall m | 0 <= m < |vis| ensures Gather(u, vis)[m] == Gather(u', vis')[m] {
      assert u'[Shift(i, j, j', vis[m])] == u[vis[m]];
    }
  }

  /** What is left of an array seen through a chain is the array seen through the visible positions. */
  lemma GatherKept<T>(u: seq<T>, a: ChainedText, s: nat, n: seq<nat>, vis: seq<nat>)
    requires Shows(a, s, n, vis) && |u| == |a.x|
    ensures InBounds(vis, |u|)
    ensures Kept(Gather(u, a.sqs[s].indices), Gather(a.x, a.sqs[s].indices), n, Gather(u, vis))
  {
    ShownAscends(a, s, n, vis);
    var idx := a.sqs[s].indices;
    var g, lv := Gather(u, idx), Gather(a.x, idx);
    forall k {:trigger g[k]} {:trigger lv[k]} | 0 <= k < |g| && Visible(lv[k])
      ensures n[k] < |vis| && Gather(u, vis)[n[k]] == g[k]
    {
      assert vis[n[k]] == idx[k];
    }
  }

  lemma ReducedChain(g: seq<BidiClass>, a: ChainedText, s: nat, n: seq<nat>, vis: seq<nat>)
    requires Shows(a, s, n, vis) && Consistent(g, a.x)
    ensures InBounds(vis, |a.x|)
    ensures Reduced(Gather(g, a.sqs[s].indices), Gather(a.x, a.sqs[s].indices), n, Gather(g, vis), Gather(a.x, vis))
  {
    GatherConsistent(g, a.x, a.sqs[s].indices);
    GatherKept(g, a, s, n, vis);
    GatherKept(a.x, a, s, n, vis);
  }

  /** If the same is left of the results, a character outside has the same class in both. */
  lemma ResultMoved(a: ChainedText, i: nat, j: nat, b: ChainedText, j': nat, s: nat, n: seq<nat>, vis: seq<nat>,
                    t: nat, n': seq<nat>, vis': seq<nat>, r: seq<BidiClass>, r': seq<BidiClass>,
                    left: seq<BidiClass>, p: nat)
    requires ChainsAlike(a, i, j, b, j', s, n, vis, t, n', vis') && |r| == |a.x| && |r'| == |b.x|
    requires Kept(Gather(r, a.sqs[s].indices), Gather(a.x, a.sqs[s].indices), n, left)
    requires Kept(Gather(r', b.sqs[t].indices), Gather(b.x, b.sqs[t].indices), n', left)
    requires p < |a.x| && Outside(i, j, p) && Visible(a.x[p])
    requires p in a.sqs[s].indices && Shift(i, j, j', p) in b.sqs[t].indices
    ensures Shift(i, j, j', p) < |b.x| && r'[Shift(i, j, j', p)] == r[p]
  {
    var p' := Shift(i, j, j', p);
    assert b.x[p'] == a.x[p];
    var k := ShownMember(a, s, n, vis, p);
    var k' := ShownMember(b, t, n', vis', p');
    ShownAscends(b, t, n', vis');
    assert vis'[n[k]] == p';
    assert n[k] == n'[k'];
    assert Gather(r, a.sqs[s].indices)[k] == r[p] && Gather(r', b.sqs[t].indices)[k'] == r'[p'];
  }
}
