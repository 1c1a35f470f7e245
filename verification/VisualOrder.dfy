/** Rule L2 as section 3.4 of UAX #9 words it, the closed form of the visual order, and
    `reverse_levels`, which meets both exactly when its sentinel does no harm. */
module VisualOrder {
  import opened BidiTypes
  import opened Reorder

  // ---------------------------------------------------------------- rule L2 of UAX #9

  predicate Indexes(s: seq<nat>, w: seq<int>) {
    forall p {:trigger s[p]} :: 0 <= p < |s| ==> s[p] < |w|
  }

  /** End of the contiguous run of characters at level `t` or higher that contains `k`. */
  function RunEnd(s: seq<nat>, w: seq<int>, t: int, k: nat): (e: nat)
    requires Indexes(s, w) && k <= |s|
    ensures k <= e <= |s|
    ensures forall p :: k <= p < e ==> t <= w[s[p]]
    ensures e < |s| ==> w[s[e]] < t
    decreases |s| - k
  {
    if k < |s| && t <= w[s[k]] then RunEnd(s, w, t, k + 1) else k
  }

  /** Reverse every contiguous run of characters at level `t` or higher.  The characters carry
      their levels with them: the character `x` has level `w[x]` wherever it stands. */
  function ReverseRuns(s: seq<nat>, w: seq<int>, t: int, k: nat): (r: seq<nat>)
    requires Indexes(s, w) && k <= |s|
    ensures |r| == |s| - k
    ensures Indexes(r, w)
    decreases |s| - k
  {
    if k == |s| then []
    else if w[s[k]] < t then [s[k]] + ReverseRuns(s, w, t, k + 1)
    else
      var e := RunEnd(s, w, t, k);
      ReverseSeq(s[k..e]) + ReverseRuns(s, w, t, e)
  }

  /** From the highest level down to the lowest odd one, including levels not actually present. */
  function ReverseFrom(s: seq<nat>, w: seq<int>, hi: int, lo: int): (r: seq<nat>)
    requires Indexes(s, w)
    ensures |r| == |s| && Indexes(r, w)
    decreases hi - lo + 1
  {
    if hi < lo then s else
      ReverseFrom(ReverseRuns(s, w, hi, 0), w, hi - 1, lo)
  }

  predicate HasOdd(lv: seq<int>) {
    exists p :: 0 <= p < |lv| && OddLevel(lv[p])
  }

  function Identity(n: nat): (s: seq<nat>)
    ensures |s| == n && forall k :: 0 <= k < n ==> s[k] == k
  {
    seq(n, k => k)
  }

  /** Rule L2 on a line without removed characters. */
  function L2Order(w: seq<int>): (s: seq<nat>)
    ensures |s| == |w| && Indexes(s, w)
  {
    if HasOdd(w) then ReverseFrom(Identity(|w|), w, Highest(w), LowestOdd(w)) else Identity(|w|)
  }

  /** The visible positions of a line, ascending. */
  function VisiblePositions(lv: seq<int>): (vis: seq<nat>)
    ensures forall k {:trigger vis[k]} :: 0 <= k < |vis| ==> vis[k] < |lv| && Visible(lv[vis[k]])
    ensures forall k, l {:trigger vis[k], vis[l]} :: 0 <= k < l < |vis| ==> vis[k] < vis[l]
    ensures forall p :: 0 <= p < |lv| && Visible(lv[p]) ==> p in vis
  {
    if lv == [] then []
    else
      var n, lv' := |lv| - 1, lv[..|lv| - 1];
      assert forall p :: 0 <= p < n ==> lv'[p] == lv[p];
      if Visible(lv[n]) then VisiblePositions(lv') + [n] else VisiblePositions(lv')
  }

  function Dropped(lv: seq<int>): (w: seq<int>)
    ensures |w| == |VisiblePositions(lv)|
    ensures forall k {:trigger w[k]} :: 0 <= k < |w| ==> w[k] == lv[VisiblePositions(lv)[k]] && Visible(w[k])
  {
    var vis := VisiblePositions(lv);
    seq(|vis|, k requires 0 <= k < |vis| => lv[vis[k]])
  }

  /** Rule L2 run on the line with the removed characters dropped first. */
  function RuleL2(lv: seq<int>, first: nat): (out: seq<int>)
    ensures |out| == |VisiblePositions(lv)|
    ensures forall p {:trigger out[p]} :: 0 <= p < |out| ==>
      out[p] == first + VisiblePositions(lv)[L2Order(Dropped(lv))[p]]
  {
    var s, vis := L2Order(Dropped(lv)), VisiblePositions(lv);
    seq(|s|, p requires 0 <= p < |s| => first + vis[s[p]])
  }

  // ---------------------------------------------------------------- the closed form

  /** The earlier of two characters is shown first iff the minimum level between them is even. */
  ghost function EvenMinimum(lv: seq<int>): (int, int) -> bool {
    (i, j) => 0 <= i <= j < |lv| && Visible(lv[i]) && MinVisible(lv, i, j) % 2 == 0
  }

  /** The lowest odd level is absent, so the loop starts at its sentinel 126, and two characters at
      level 126 have nothing lower between them. */
  ghost predicate SentinelHit(lv: seq<int>) {
    && !HasOdd(lv)
    && exists i, j :: 0 <= i < j < |lv| && Visible(lv[i]) && Visible(lv[j])
         && MinVisible(lv, i, j) == MAX_RESOLVED_LEVEL
  }

  lemma ParityOfFlips(m: int, lo: int)
    requires 0 <= m <= MAX_RESOLVED_LEVEL && 0 < lo <= MAX_RESOLVED_LEVEL
    requires lo < MAX_RESOLVED_LEVEL ==> OddLevel(lo)
    requires OddLevel(m) ==> lo <= m
    ensures EvenFlips(m, lo) == (m % 2 == 0) <==> lo < MAX_RESOLVED_LEVEL || m != MAX_RESOLVED_LEVEL
  {
  }

  lemma OddBelowSentinel(lv: seq<int>)
    requires LevelsInRange(lv)
    ensures HasOdd(lv) <==> LowestOdd(lv) < MAX_RESOLVED_LEVEL
  {
  }

  lemma PassesAndParity(lv: seq<int>, i: int, j: int)
    requires LevelsInRange(lv) && 0 <= i < j < |lv| && Visible(lv[i]) && Visible(lv[j])
    ensures AfterPasses(lv, LowestOdd(lv))(i, j) == EvenMinimum(lv)(i, j)
            <==> HasOdd(lv) || MinVisible(lv, i, j) != MAX_RESOLVED_LEVEL
  {
    var z := MinVisibleAttained(lv, i, j);
    ParityOfFlips(lv[z], LowestOdd(lv));
    OddBelowSentinel(lv);
  }

  lemma OrderDecides(first: nat, out: seq<int>, before: (int, int) -> bool, before': (int, int) -> bool,
                     i: int, j: int)
    requires OrderedBy(first, out, before) && i < j && first + i in out && first + j in out
    requires before(i, j) != before'(i, j)
    ensures !OrderedBy(first, out, before')
  {
  }

  lemma SentinelReverses(lv: seq<int>, first: nat, out: seq<int>)
    requires LevelsInRange(lv) && ListsVisible(lv, first, out) && SentinelHit(lv)
    requires OrderedBy(first, out, AfterPasses(lv, LowestOdd(lv)))
    ensures !OrderedBy(first, out, EvenMinimum(lv))
  {
    var i, j :| 0 <= i < j < |lv| && Visible(lv[i]) && Visible(lv[j])
      && MinVisible(lv, i, j) == MAX_RESOLVED_LEVEL;
    PassesAndParity(lv, i, j);
    assert Shows(out, first, i) && Shows(out, first, j);
    OrderDecides(first, out, AfterPasses(lv, LowestOdd(lv)), EvenMinimum(lv), i, j);
  }

  ghost predicate SameOrder(lv: seq<int>, before: (int, int) -> bool, before': (int, int) -> bool) {
    forall i, j {:trigger before'(i, j)} ::
      0 <= i < j < |lv| && Visible(lv[i]) && Visible(lv[j]) ==> before(i, j) == before'(i, j)
  }

  lemma OrderTransfers(lv: seq<int>, first: nat, out: seq<int>,
                       before: (int, int) -> bool, before': (int, int) -> bool)
    requires ListsVisible(lv, first, out) && OrderedBy(first, out, before)
    requires SameOrder(lv, before, before')
    ensures OrderedBy(first, out, before')
  {
  }

  /** The passes order a line by minimum parity exactly when the sentinel is not hit. */
  lemma ClosedForm(lv: seq<int>, first: nat, out: seq<int>)
    requires LevelsInRange(lv) && ListsVisible(lv, first, out)
    requires OrderedBy(first, out, AfterPasses(lv, LowestOdd(lv)))
    ensures OrderedBy(first, out, EvenMinimum(lv)) <==> !SentinelHit(lv)
  {
    if SentinelHit(lv) {
      SentinelReverses(lv, first, out);
    } else {
      var before, before' := AfterPasses(lv, LowestOdd(lv)), EvenMinimum(lv);
      forall i, j {:trigger before'(i, j)} | 0 <= i < j < |lv| && Visible(lv[i]) && Visible(lv[j])
        ensures before(i, j) == before'(i, j)
      {
        PassesAndParity(lv, i, j);
      }
      OrderTransfers(lv, first, out, before, before');
    }
  }

  // ---------------------------------------------------------------- the rule of UAX #9 has the closed form

  /** The characters stand in `s` as if the levels had stayed where they were. */
  ghost predicate SamePattern(s: seq<nat>, w: seq<int>, t: int) {
    && |s| == |w| && Indexes(s, w)
    && (forall p {:trigger s[p]} :: 0 <= p < |s| ==> (w[s[p]] < t <==> w[p] < t))
  }

  ghost predicate AllVisible(w: seq<int>) {
    forall p {:trigger w[p]} :: 0 <= p < |w| ==> Visible(w[p])
  }

  /** Reversing runs from `k` on treats everything from a run boundary `b` on by itself. */
  lemma SuffixFrom(s: seq<nat>, w: seq<int>, t: int, k: nat, b: nat)
    requires Indexes(s, w) && k <= b <= |s|
    requires b == k || b == |s| || w[s[b - 1]] < t || w[s[b]] < t
    ensures ReverseRuns(s, w, t, k)[b - k..] == ReverseRuns(s, w, t, b)
    decreases |s| - k
  {
    if k < b {
      var next := if w[s[k]] < t then k + 1 else RunEnd(s, w, t, k);
      SuffixFrom(s, w, t, next, b);
      assert ReverseRuns(s, w, t, k)[next - k..] == ReverseRuns(s, w, t, next);
      assert ReverseRuns(s, w, t, k)[next - k..][b - next..] == ReverseRuns(s, w, t, k)[b - k..];
    }
  }

  lemma LowKeptAt(s: seq<nat>, w: seq<int>, t: int, p: nat)
    requires SamePattern(s, w, t) && p < |w| && w[p] < t
    ensures ReverseRuns(s, w, t, 0)[p] == s[p]
  {
    assert w[s[p]] < t;
    SuffixFrom(s, w, t, 0, p);
    assert ReverseRuns(s, w, t, 0)[p] == ReverseRuns(s, w, t, 0)[p..][0];
  }

  lemma RunEndIs(s: seq<nat>, w: seq<int>, t: int, b: nat, e: nat)
    requires Indexes(s, w) && b <= e <= |s|
    requires e < |s| ==> w[s[e]] < t
    requires forall q {:trigger s[q]} :: b <= q < e ==> t <= w[s[q]]
    ensures RunEnd(s, w, t, b) == e
    decreases e - b
  {
  }

  lemma ReversedSliceAt(s: seq<nat>, b: nat, e: nat, p: nat)
    requires b <= p < e <= |s|
    ensures ReverseSeq(s[b..e])[p - b] == s[b + e - 1 - p]
  {
  }

  lemma RunReversedAt(s: seq<nat>, w: seq<int>, t: int, b: nat, e: nat, p: nat)
    requires Indexes(s, w) && b <= p < e <= |s|
    requires b == 0 || w[s[b - 1]] < t
    requires e < |s| ==> w[s[e]] < t
    requires forall q {:trigger s[q]} :: b <= q < e ==> t <= w[s[q]]
    ensures ReverseRuns(s, w, t, 0)[p] == s[b + e - 1 - p]
  {
    RunEndIs(s, w, t, b, e);
    SuffixFrom(s, w, t, 0, b);
    ReversedSliceAt(s, b, e, p);
    var all := ReverseRuns(s, w, t, 0);
    assert ReverseRuns(s, w, t, b)[p - b] == ReverseSeq(s[b..e])[p - b];
    assert all[p] == all[b..][p - b];
  }

  lemma RunPatternAt(s: seq<nat>, w: seq<int>, t: int, b: nat, e: nat)
    requires SamePattern(s, w, t) && AllVisible(w) && Stretch(w, t, b, e)
    ensures b == 0 || w[s[b - 1]] < t
    ensures e < |s| ==> w[s[e]] < t
    ensures forall q {:trigger s[q]} :: b <= q < e ==> t <= w[s[q]]
    ensures b < e ==> FirstIn(w, b) == b
  {
    forall q {:trigger s[q]} | b <= q < e ensures t <= w[s[q]] {
      assert !Low(w, t, q) && Visible(w[q]);
    }
  }

  lemma RunsArePass(s: seq<nat>, w: seq<int>, t: int)
    requires SamePattern(s, w, t) && AllVisible(w)
    ensures Pass(w, t, s, ReverseRuns(s, w, t, 0))
  {
    var r := ReverseRuns(s, w, t, 0);
    forall p | 0 <= p < |w| && Low(w, t, p) ensures r[p] == s[p] {
      LowKeptAt(s, w, t, p);
    }
    forall b, e | Stretch(w, t, b, e) ensures StretchDone(w, b, e, s, r) {
      RunPatternAt(s, w, t, b, e);
      forall p {:trigger r[p]} | b <= p < e ensures r[p] == s[b + e - 1 - p] {
        RunReversedAt(s, w, t, b, e, p);
      }
      assert Flipped(w, b, e, s, r);
    }
  }

  lemma PatternKept(w: seq<int>, t: int, s: seq<nat>, pos: seq<int>)
    requires AllVisible(w) && |w| < DELETED && Indexes(s, w)
    requires Tracks(w, 0, s, pos) && Contained(w, t, pos)
    ensures SamePattern(s, w, t)
  {
    forall p {:trigger s[p]} | 0 <= p < |s| ensures w[s[p]] < t <==> w[p] < t {
      assert ShowsAt(w, 0, s, pos, p);
      var i := s[p];
      if !Low(w, t, i) {
        var b, e := StretchAround(w, t, i);
        assert b <= pos[i] < e;
        assert !Low(w, t, p);
      }
    }
  }

  lemma RunsPlaces(s: seq<nat>, w: seq<int>, t: int, pos: seq<int>) returns (pos': seq<int>)
    requires AllVisible(w) && |w| < DELETED && Indexes(s, w)
    requires Tracks(w, 0, s, pos) && Contained(w, t + 1, pos) && Ordered(w, pos, AfterPasses(w, t + 1))
    ensures var s' := ReverseRuns(s, w, t, 0);
            Tracks(w, 0, s', pos') && Contained(w, t, pos') && Ordered(w, pos', AfterPasses(w, t))
  {
    ContainedCoarser(w, t, pos);
    PatternKept(w, t, s, pos);
    RunsArePass(s, w, t);
    pos' := PassPlaces(w, 0, t, s, ReverseRuns(s, w, t, 0), pos);
  }

  lemma ReverseFromPlaces(s: seq<nat>, w: seq<int>, hi: int, lo: int, pos: seq<int>) returns (pos': seq<int>)
    requires AllVisible(w) && |w| < DELETED && Indexes(s, w) && lo <= hi + 1
    requires Tracks(w, 0, s, pos) && Contained(w, hi + 1, pos) && Ordered(w, pos, AfterPasses(w, hi + 1))
    ensures var r := ReverseFrom(s, w, hi, lo);
            Tracks(w, 0, r, pos') && Ordered(w, pos', AfterPasses(w, lo))
    decreases hi - lo + 1
  {
    if hi < lo {
      pos' := pos;
    } else {
      pos' := RunsPlaces(s, w, hi, pos);
      pos' := ReverseFromPlaces(ReverseRuns(s, w, hi, 0), w, hi - 1, lo, pos');
    }
  }

  lemma EntriesShown(w: seq<int>, s: seq<nat>)
    requires Indexes(s, w) && |s| == |w| < DELETED
    ensures Retained(s, s, Identity(|w|))
  {
    var ps := Identity(|w|);
    forall p {:trigger s[p]} | 0 <= p < |s| ensures p in ps {
      assert ps[p] == p;
    }
  }

  lemma LowestOddEndsPasses(w: seq<int>)
    requires LevelsInRange(w) && HasOdd(w)
    ensures SameOrder(w, AfterPasses(w, LowestOdd(w)), EvenMinimum(w))
  {
    var before' := EvenMinimum(w);
    forall i, j {:trigger before'(i, j)} | 0 <= i < j < |w| && Visible(w[i]) && Visible(w[j])
      ensures AfterPasses(w, LowestOdd(w))(i, j) == before'(i, j)
    {
      PassesAndParity(w, i, j);
    }
  }

  lemma NoOddEndsPasses(w: seq<int>, lo: int)
    requires LevelsInRange(w) && !HasOdd(w) && forall p :: 0 <= p < |w| ==> w[p] < lo
    ensures SameOrder(w, AfterPasses(w, lo), EvenMinimum(w))
  {
    var before' := EvenMinimum(w);
    forall i, j {:trigger before'(i, j)} | 0 <= i < j < |w| && Visible(w[i]) && Visible(w[j])
      ensures AfterPasses(w, lo)(i, j) == before'(i, j)
    {
      var z := MinVisibleAttained(w, i, j);
      assert !OddLevel(w[z]);
    }
  }

  lemma PlacesParity(w: seq<int>, out: seq<nat>, pos: seq<int>,
                     before: (int, int) -> bool, before': (int, int) -> bool)
    requires AllVisible(w) && |w| < DELETED && SameOrder(w, before, before') && Indexes(out, w)
    requires Tracks(w, 0, out, pos) && Ordered(w, pos, before)
    ensures ListsVisible(w, 0, out) && OrderedBy(0, out, before')
  {
    EntriesShown(w, out);
    RetainLists(w, 0, out, pos, out, Identity(|w|));
    RetainOrdered(w, 0, out, pos, before, out, Identity(|w|));
    OrderTransfers(w, 0, out, before, before');
  }

  lemma ReverseFromParity(w: seq<int>, hi: int, lo: int)
    requires AllVisible(w) && |w| < DELETED && SameOrder(w, AfterPasses(w, lo), EvenMinimum(w))
    requires lo <= hi + 1 && forall p :: 0 <= p < |w| ==> w[p] <= hi
    ensures var out := ReverseFrom(Identity(|w|), w, hi, lo);
            ListsVisible(w, 0, out) && OrderedBy(0, out, EvenMinimum(w))
  {
    var s := Identity(|w|);
    InitialPlaces(w, 0, s, hi + 1, s);
    var pos := ReverseFromPlaces(s, w, hi, lo, s);
    PlacesParity(w, ReverseFrom(s, w, hi, lo), pos, AfterPasses(w, lo), EvenMinimum(w));
  }

  /** Rule L2 orders a line without removed characters by minimum parity. */
  lemma L2Parity(w: seq<int>)
    requires AllVisible(w) && LevelsInRange(w) && |w| < DELETED
    ensures ListsVisible(w, 0, L2Order(w)) && OrderedBy(0, L2Order(w), EvenMinimum(w))
  {
    var hi := Highest(w);
    if HasOdd(w) {
      var p :| 0 <= p < |w| && OddLevel(w[p]);
      LowestOddEndsPasses(w);
      ReverseFromParity(w, hi, LowestOdd(w));
    } else {
      NoOddEndsPasses(w, hi + 1);
      ReverseFromParity(w, hi, hi + 1);
    }
  }

  // ---------------------------------------------------------------- both orders are the same

  ghost predicate IsDropped(lv: seq<int>, vis: seq<nat>, w: seq<int>) {
    && |w| == |vis|
    && (forall k {:trigger vis[k]} :: 0 <= k < |vis| ==> vis[k] < |lv| && Visible(lv[vis[k]]))
    && (forall k {:trigger w[k]} :: 0 <= k < |w| ==> w[k] == lv[vis[k]])
    && (forall k, l {:trigger vis[k], vis[l]} :: 0 <= k < l < |vis| ==> vis[k] < vis[l])
    && (forall p {:trigger p in vis} :: 0 <= p < |lv| && Visible(lv[p]) ==> p in vis)
  }

  lemma {:induction false} VisibleCount(lv: seq<int>)
    ensures |VisiblePositions(lv)| <= |lv|
    decreases |lv|
  {
    if lv != [] {
      VisibleCount(lv[..|lv| - 1]);
    }
  }

  lemma {:induction false} DroppedLine(lv: seq<int>)
    ensures IsDropped(lv, VisiblePositions(lv), Dropped(lv)) && |VisiblePositions(lv)| <= |lv|
    ensures AllVisible(Dropped(lv)) && (LevelsInRange(lv) ==> LevelsInRange(Dropped(lv)))
  {
    VisibleCount(lv);
  }

  lemma DroppedMinimum(lv: seq<int>, vis: seq<nat>, w: seq<int>, a: nat, b: nat)
    requires IsDropped(lv, vis, w) && a <= b < |w|
    ensures vis[a] <= vis[b] && MinVisible(lv, vis[a], vis[b]) == MinVisible(w, a, b)
  {
    var k := MinVisibleAttained(w, a, b);
    assert vis[a] <= vis[k] <= vis[b];
    var z := MinVisibleAttained(lv, vis[a], vis[b]);
    assert z in vis;
    var l :| 0 <= l < |vis| && vis[l] == z;
    assert a <= l <= b;
    assert w[l] == lv[z] && w[k] == lv[vis[k]];
  }

  lemma MappedInOrder(lv: seq<int>, vis: seq<nat>, w: seq<int>, x: nat, y: nat)
    requires IsDropped(lv, vis, w) && x < |w| && y < |w| && x != y
    requires InOrder(EvenMinimum(w), x, y)
    ensures vis[x] != vis[y] && InOrder(EvenMinimum(lv), vis[x], vis[y])
  {
    DroppedMinimum(lv, vis, w, Min(x, y), Max(x, y));
    assert vis[Min(x, y)] < vis[Max(x, y)];
  }

  /** `out` is `s` with the places of the dropped line mapped to positions of the line. */
  ghost predicate IsMapped(vis: seq<nat>, first: nat, s: seq<nat>, out: seq<int>) {
    && |out| == |s|
    && forall p {:trigger out[p]} :: 0 <= p < |out| ==> s[p] < |vis| && out[p] == first + vis[s[p]]
  }

  lemma MappedCovers(lv: seq<int>, vis: seq<nat>, w: seq<int>, first: nat, s: seq<nat>, out: seq<int>, i: nat)
    requires IsDropped(lv, vis, w) && IsMapped(vis, first, s, out) && i < |lv| && Visible(lv[i])
    requires ListsVisible(w, 0, s)
    ensures first + i in out
  {
    assert i in vis;
    var k :| 0 <= k < |vis| && vis[k] == i;
    assert Visible(w[k]) && Shows(s, 0, k);
    var p :| 0 <= p < |s| && s[p] == k;
    assert out[p] == first + i;
  }

  lemma MappedPair(lv: seq<int>, vis: seq<nat>, w: seq<int>, s: seq<nat>, q: nat, r: nat)
    requires IsDropped(lv, vis, w) && q < r < |s|
    requires ListsVisible(w, 0, s) && OrderedBy(0, s, EvenMinimum(w))
    ensures s[q] < |w| && s[r] < |w|
    ensures vis[s[q]] != vis[s[r]] && InOrder(EvenMinimum(lv), vis[s[q]], vis[s[r]])
  {
    assert s[q] != s[r] && InOrder(EvenMinimum(w), s[q] - 0, s[r] - 0);
    MappedInOrder(lv, vis, w, s[q], s[r]);
  }

  lemma MappedLists(lv: seq<int>, vis: seq<nat>, w: seq<int>, first: nat, s: seq<nat>, out: seq<int>)
    requires IsDropped(lv, vis, w) && IsMapped(vis, first, s, out)
    requires ListsVisible(w, 0, s) && OrderedBy(0, s, EvenMinimum(w))
    ensures ListsVisible(lv, first, out)
  {
    forall q, r {:trigger out[q], out[r]} | 0 <= q < r < |out| ensures out[q] != out[r] {
      MappedPair(lv, vis, w, s, q, r);
    }
    forall i {:trigger Shows(out, first, i)} | 0 <= i < |lv| && Visible(lv[i]) ensures Shows(out, first, i) {
      MappedCovers(lv, vis, w, first, s, out, i);
    }
  }

  lemma MappedOrdered(lv: seq<int>, vis: seq<nat>, w: seq<int>, first: nat, s: seq<nat>, out: seq<int>,
                      before: (int, int) -> bool)
    requires IsDropped(lv, vis, w) && IsMapped(vis, first, s, out) && before == EvenMinimum(lv)
    requires ListsVisible(w, 0, s) && OrderedBy(0, s, EvenMinimum(w))
    ensures OrderedBy(first, out, before)
  {
    forall q, r {:trigger out[q], out[r]} | 0 <= q < r < |out|
      ensures InOrder(before, out[q] - first, out[r] - first)
    {
      MappedPair(lv, vis, w, s, q, r);
    }
  }

  lemma RuleL2Lists(lv: seq<int>, first: nat)
    requires LevelsInRange(lv) && |lv| < DELETED
    ensures ListsVisible(lv, first, RuleL2(lv, first))
    ensures OrderedBy(first, RuleL2(lv, first), EvenMinimum(lv))
  {
    DroppedLine(lv);
    L2Parity(Dropped(lv));
    MappedLists(lv, VisiblePositions(lv), Dropped(lv), first, L2Order(Dropped(lv)), RuleL2(lv, first));
    MappedOrdered(lv, VisiblePositions(lv), Dropped(lv), first, L2Order(Dropped(lv)), RuleL2(lv, first),
                  EvenMinimum(lv));
  }

  lemma FoundFrom(lv: seq<int>, first: nat, x: seq<int>, y: seq<int>, k: nat) returns (q: nat)
    requires ListsVisible(lv, first, x) && ListsVisible(lv, first, y)
    requires k < |x| && k <= |y| && forall j :: 0 <= j < k ==> x[j] == y[j]
    ensures k <= q < |y| && y[q] == x[k]
  {
    assert Shows(y, first, x[k] - first);
    q :| 0 <= q < |y| && y[q] == x[k];
  }

  lemma SameEntry(lv: seq<int>, first: nat, x: seq<int>, y: seq<int>, before: (int, int) -> bool, k: nat)
    requires ListsVisible(lv, first, x) && ListsVisible(lv, first, y)
    requires OrderedBy(first, x, before) && OrderedBy(first, y, before)
    requires k < |x| && k <= |y| && forall j :: 0 <= j < k ==> x[j] == y[j]
    ensures k < |y| && x[k] == y[k]
  {
    var q := FoundFrom(lv, first, x, y, k);
    var r := FoundFrom(lv, first, y, x, k);
    var xk, xr, yk, yq := x[k], x[r], y[k], y[q];
  }

  /** An order on the visible characters determines the sequence. */
  lemma OrderUnique(lv: seq<int>, first: nat, x: seq<int>, y: seq<int>, before: (int, int) -> bool)
    requires ListsVisible(lv, first, x) && ListsVisible(lv, first, y)
    requires OrderedBy(first, x, before) && OrderedBy(first, y, before)
    ensures x == y
  {
    var k := 0;
    while k < |x|
      invariant k <= |x| && k <= |y|
      invariant forall j :: 0 <= j < k ==> x[j] == y[j]
    {
      SameEntry(lv, first, x, y, before, k);
      k := k + 1;
    }
    if k < |y| {
      SameEntry(lv, first, y, x, before, k);
    }
  }

  // ---------------------------------------------------------------- reverse_levels

  /** `reverse_levels` is rule L2, and orders by minimum parity, unless its sentinel is hit. */
  lemma PassesAreRuleL2(lv: seq<int>, first: nat, out: seq<int>)
    requires LevelsInRange(lv) && |lv| < DELETED && ListsVisible(lv, first, out)
    requires OrderedBy(first, out, AfterPasses(lv, LowestOdd(lv)))
    ensures OrderedBy(first, out, EvenMinimum(lv)) <==> !SentinelHit(lv)
    ensures out == RuleL2(lv, first) <==> !SentinelHit(lv)
  {
    ClosedForm(lv, first, out);
    RuleL2Lists(lv, first);
    if !SentinelHit(lv) {
      OrderUnique(lv, first, out, RuleL2(lv, first), EvenMinimum(lv));
    }
  }

  /** `reverse_levels`.  `firstCidx` is the paragraph index of the line's first character. */
  method ReverseLevels(firstCidx: nat, lv: seq<int>) returns (visual: seq<int>)
    requires firstCidx + |lv| < DELETED
    ensures ListsVisible(lv, firstCidx, visual)
    ensures OrderedBy(firstCidx, visual, AfterPasses(lv, LowestOdd(lv)))
    ensures LevelsInRange(lv) ==> (OrderedBy(firstCidx, visual, EvenMinimum(lv)) <==> !SentinelHit(lv))
    ensures LevelsInRange(lv) ==> (visual == RuleL2(lv, firstCidx) <==> !SentinelHit(lv))
  {
    visual := VisualLevels(firstCidx, lv);
    if LevelsInRange(lv) {
      PassesAreRuleL2(lv, firstCidx, visual);
    }
  }

  method VisualLevels(firstCidx: nat, lv: seq<int>) returns (visual: seq<int>)
    requires firstCidx + |lv| < DELETED
    ensures ListsVisible(lv, firstCidx, visual)
    ensures OrderedBy(firstCidx, visual, AfterPasses(lv, LowestOdd(lv)))
  {
    var highestLevel, lowestOddLevel, noLevels := LevelBounds(lv);
    if noLevels {
      visual := [];
      return;
    }
    visual := InitialVisual(firstCidx, lv);
    var level := highestLevel;
    ghost var done := Max(lowestOddLevel, highestLevel + 1);
    ghost var pos: seq<int> := Identity(|lv|);
    InitialPlaces(lv, firstCidx, visual, done, pos);
    while lowestOddLevel <= level
      invariant done == Max(lowestOddLevel, level + 1)
      invariant Tracks(lv, firstCidx, visual, pos)
      invariant Contained(lv, done, pos) && Ordered(lv, pos, AfterPasses(lv, done))
    {
      var before := visual;
      visual := ReversePass(lv, level, before);
      pos := PassPlaces(lv, firstCidx, level, before, visual, pos);
      level, done := level - 1, level;
    }
    RetainIsRetained(visual);
    RetainLists(lv, firstCidx, visual, pos, Retain(visual), Places(visual));
    RetainOrdered(lv, firstCidx, visual, pos, AfterPasses(lv, done), Retain(visual), Places(visual));
    visual := Retain(visual);
  }
}
