/** Rule L2, `reverse_levels` in `bidi/src/lib.rs`.

    A line is a sequence of levels.  A pass at threshold `t` reverses the stretches of the visual
    order that lie between two visible characters below `t`; characters removed by X9 are carried
    along inside such a stretch. */
module Reorder {
  import opened Options
  import opened BidiTypes

  /** `usize::MAX`, the entry that stands for a removed character. */
  const DELETED: int := 0xFFFF_FFFF_FFFF_FFFF

  ghost predicate LevelsInRange(lv: seq<int>) {
    forall p :: 0 <= p < |lv| ==> NO_LEVEL <= lv[p] <= MAX_RESOLVED_LEVEL
  }

  // ---------------------------------------------------------------- ranges

  /** A visible character below the threshold ends a range. */
  predicate Low(lv: seq<int>, t: int, p: int)
    requires 0 <= p < |lv|
  {
    Visible(lv[p]) && lv[p] < t
  }

  /** A stretch of characters that are not low, as long as possible. */
  ghost predicate Stretch(lv: seq<int>, t: int, b: int, e: int) {
    && 0 <= b <= e <= |lv|
    && (b == 0 || Low(lv, t, b - 1))
    && (e == |lv| || Low(lv, t, e))
    && forall q :: b <= q < e ==> !Low(lv, t, q)
  }

  lemma StretchUnique(lv: seq<int>, t: int, b: int, e: int, b': int, e': int)
    requires Stretch(lv, t, b, e) && Stretch(lv, t, b', e')
    requires e == e' || Max(b, b') < Min(e, e')
    ensures b == b' && e == e'
  {
  }

  lemma StretchAround(lv: seq<int>, t: int, p: int) returns (b: int, e: int)
    requires 0 <= p < |lv| && !Low(lv, t, p)
    ensures b <= p < e && Stretch(lv, t, b, e)
  {
    b, e := p, p + 1;
    while b != 0 && !Low(lv, t, b - 1)
      invariant 0 <= b <= p
      invariant forall q :: b <= q <= p ==> !Low(lv, t, q)
    {
      b := b - 1;
    }
    while e != |lv| && !Low(lv, t, e)
      invariant p < e <= |lv|
      invariant forall q :: b <= q < e ==> !Low(lv, t, q)
    {
      e := e + 1;
    }
  }

  /** The range of a stretch starts at its first visible character. */
  function FirstIn(lv: seq<int>, p: nat): (a: nat)
    requires p <= |lv|
    ensures p <= a <= |lv|
    ensures a == |lv| || Visible(lv[a])
    ensures forall q :: p <= q < a ==> !Visible(lv[q])
    decreases |lv| - p
  {
    if p == |lv| || Visible(lv[p]) then p else FirstIn(lv, p + 1)
  }

  // ---------------------------------------------------------------- one pass

  ghost predicate Flipped(lv: seq<int>, b: int, e: int, v: seq<int>, v': seq<int>)
    requires 0 <= b <= e <= |lv| == |v| == |v'|
  {
    var a := FirstIn(lv, b);
    && (forall p {:trigger v'[p]} :: b <= p < a && p < e ==> v'[p] == v[p])
    && (forall p {:trigger v'[p]} :: a <= p < e ==> v'[p] == v[a + e - 1 - p])
  }

  ghost predicate Kept(lv: seq<int>, b: int, e: int, v: seq<int>, v': seq<int>)
    requires 0 <= b <= e <= |lv| == |v| == |v'|
  {
    && (forall p {:trigger v'[p]} :: b <= p < e ==> v'[p] == v[p])
    && (forall p {:trigger lv[p]} :: FirstIn(lv, b) < p < e ==> !Visible(lv[p]))
  }

  ghost predicate StretchDone(lv: seq<int>, b: int, e: int, v: seq<int>, v': seq<int>)
    requires 0 <= b <= e <= |lv| == |v| == |v'|
  {
    Flipped(lv, b, e, v, v') || Kept(lv, b, e, v, v')
  }

  ghost predicate StretchesDone(lv: seq<int>, t: int, limit: int, v: seq<int>, v': seq<int>)
    requires |lv| == |v| == |v'|
  {
    forall b, e :: Stretch(lv, t, b, e) && e <= limit ==> StretchDone(lv, b, e, v, v')
  }

  ghost predicate LowKept(lv: seq<int>, t: int, v: seq<int>, v': seq<int>)
    requires |lv| == |v| == |v'|
  {
    forall p :: 0 <= p < |lv| && Low(lv, t, p) ==> v'[p] == v[p]
  }

  /** A pass reverses every range with two visible characters.  A range with one may be reversed
      or kept, which the sticky `significant_range` flag decides. */
  ghost predicate Pass(lv: seq<int>, t: int, v: seq<int>, v': seq<int>) {
    && |v| == |v'| == |lv|
    && LowKept(lv, t, v, v')
    && StretchesDone(lv, t, |lv|, v, v')
  }

  function ReverseSeq<T>(s: seq<T>): (r: seq<T>)
    ensures |r| == |s|
    ensures forall k {:trigger r[k]} :: 0 <= k < |s| ==> r[k] == s[|s| - 1 - k]
  {
    seq(|s|, k requires 0 <= k < |s| => s[|s| - 1 - k])
  }

  /** `visual[first..=last].reverse()` */
  function ReverseSlice(v: seq<int>, first: nat, last: nat): (r: seq<int>)
    requires first <= last < |v|
    ensures |r| == |v|
    ensures forall p {:trigger r[p]} :: 0 <= p < |v| ==>
      r[p] == if first <= p <= last then v[first + last - p] else v[p]
  {
    seq(|v|, p requires 0 <= p < |v| => if first <= p <= last then v[first + last - p] else v[p])
  }

  lemma StretchDoneFrame(lv: seq<int>, b: int, e: int, v0: seq<int>, v: seq<int>, v': seq<int>)
    requires 0 <= b <= e <= |lv| == |v0| == |v| == |v'|
    requires forall p {:trigger v'[p]} :: b <= p < e ==> v'[p] == v[p]
    requires StretchDone(lv, b, e, v0, v)
    ensures StretchDone(lv, b, e, v0, v')
  {
  }

  lemma CloseRange(lv: seq<int>, b: int, e: int, v0: seq<int>, v: seq<int>, flip: bool)
    requires 0 <= b <= e <= |lv| == |v0| == |v|
    requires forall p :: b <= p < e ==> v[p] == v0[p]
    requires if flip then FirstIn(lv, b) < e - 1
             else OneVisible(lv, b, e)
    ensures StretchDone(lv, b, e, v0, if flip then ReverseSlice(v, FirstIn(lv, b), e - 1) else v)
  {
  }

  lemma EarlierStretch(lv: seq<int>, t: int, b: int, e: int, b': int, e': int)
    requires Stretch(lv, t, b, e) && Stretch(lv, t, b', e') && e' <= e
    ensures (b' == b && e' == e) || e' < b
  {
  }

  /** Closing the stretch `[b..e)` leaves all earlier stretches as they are. */
  lemma CloseStretch(lv: seq<int>, t: int, b: int, e: int, v0: seq<int>, v: seq<int>, v': seq<int>)
    requires Stretch(lv, t, b, e) && |v0| == |v| == |v'| == |lv|
    requires StretchesDone(lv, t, b - 1, v0, v) && StretchDone(lv, b, e, v0, v')
    requires forall p {:trigger v'[p]} :: 0 <= p < b ==> v'[p] == v[p]
    ensures StretchesDone(lv, t, e, v0, v')
  {
    forall b', e' | Stretch(lv, t, b', e') && e' <= e
      ensures StretchDone(lv, b', e', v0, v')
    {
      EarlierStretch(lv, t, b, e, b', e');
      if e' < b {
        StretchDoneFrame(lv, b', e', v0, v, v');
      }
    }
  }

  ghost predicate Progress(lv: seq<int>, t: int, limit: int, v0: seq<int>, v: seq<int>) {
    && |lv| == |v0| == |v|
    && LowKept(lv, t, v0, v)
    && StretchesDone(lv, t, limit - 1, v0, v)
    && forall p {:trigger v[p]} :: 0 <= limit <= p < |lv| ==> v[p] == v0[p]
  }

  /** `visual` after the range of the stretch `[b..e)` is reversed or kept. */
  function AfterRange(lv: seq<int>, b: nat, e: nat, v: seq<int>, flip: bool): seq<int>
    requires b <= |lv| == |v| && (flip ==> FirstIn(lv, b) < e <= |v|)
  {
    if flip then ReverseSlice(v, FirstIn(lv, b), e - 1) else v
  }

  lemma AfterRangeProgress(lv: seq<int>, t: int, b: nat, e: nat, v0: seq<int>, v: seq<int>, flip: bool)
    requires Stretch(lv, t, b, e) && Progress(lv, t, b, v0, v)
    requires if flip then FirstIn(lv, b) < e - 1
             else OneVisible(lv, b, e)
    ensures Progress(lv, t, e + 1, v0, AfterRange(lv, b, e, v, flip))
  {
    var v' := AfterRange(lv, b, e, v, flip);
    CloseRange(lv, b, e, v0, v, flip);
    CloseStretch(lv, t, b, e, v0, v, v');
  }

  /** The flags of the scan at position `i`, in the stretch that starts at `b`. */
  ghost predicate Scanning(lv: seq<int>, t: int, b: nat, i: nat, inRange: bool, significantRange: bool,
                           firstPos: Option<nat>, lastPos: Option<nat>)
  {
    && b <= i <= |lv|
    && (b == 0 || Low(lv, t, b - 1))
    && (forall q {:trigger lv[q]} :: b <= q < i ==> !Low(lv, t, q))
    && var a := FirstIn(lv, b);
    && (inRange <==> a < i)
    && firstPos == (if a < i then Some(a) else None)
    && lastPos == (if a < i - 1 then Some(i - 1 as nat) else None)
    && (!significantRange ==> OneVisible(lv, b, i))
  }

  ghost predicate OneVisible(lv: seq<int>, b: nat, e: nat)
    requires b <= |lv|
  {
    forall q {:trigger lv[q]} :: FirstIn(lv, b) < q < e <= |lv| ==> !Visible(lv[q])
  }

  lemma ScanEnds(lv: seq<int>, t: int, b: nat, i: nat, inRange: bool, significantRange: bool,
                 firstPos: Option<nat>, lastPos: Option<nat>)
    requires Scanning(lv, t, b, i, inRange, significantRange, firstPos, lastPos)
    requires i == |lv| || Low(lv, t, i)
    ensures Stretch(lv, t, b, i)
    ensures lastPos.Some? && significantRange ==>
      firstPos == Some(FirstIn(lv, b)) && lastPos.value == i - 1 && FirstIn(lv, b) < i - 1
    ensures !(lastPos.Some? && significantRange) ==> OneVisible(lv, b, i)
  {
  }

  /** End of a range: reverse it if it is significant. */
  method FinishRange(lv: seq<int>, level: int, ghost b: nat, ghost e: nat, significantRange: bool,
                     firstPos: Option<nat>, lastPos: Option<nat>, ghost v0: seq<int>, v: seq<int>)
    returns (visual: seq<int>)
    requires Stretch(lv, level, b, e) && Progress(lv, level, b, v0, v)
    requires lastPos.Some? && significantRange ==>
      firstPos == Some(FirstIn(lv, b)) && lastPos.value == e - 1 && FirstIn(lv, b) < e - 1
    requires !(lastPos.Some? && significantRange) ==> OneVisible(lv, b, e)
    ensures Progress(lv, level, e + 1, v0, visual)
  {
    visual := v;
    AfterRangeProgress(lv, level, b, e, v0, v, lastPos.Some? && significantRange);
    if lastPos.Some? && firstPos.Some? && significantRange && firstPos.value < lastPos.value {
      visual := ReverseSlice(visual, firstPos.value, lastPos.value);
    }
  }

  /** The body of the loop over levels in `reverse_levels`. */
  method ReversePass(lv: seq<int>, level: int, v0: seq<int>) returns (visual: seq<int>)
    requires 0 <= level && |v0| == |lv|
    ensures Pass(lv, level, v0, visual)
  {
    visual := v0;
    var i := 0;
    var inRange, significantRange := false, false;
    var firstPos: Option<nat>, lastPos: Option<nat> := None, None;
    ghost var b := 0;
    while i < |lv|
      invariant Scanning(lv, level, b, i, inRange, significantRange, firstPos, lastPos)
      invariant Progress(lv, level, b, v0, visual)
    {
      if level <= lv[i] {
        if !inRange {
          inRange := true;
          firstPos := Some(i);
        } else {
          significantRange := true;
          lastPos := Some(i);
        }
      } else if !Visible(lv[i]) {
        if inRange {
          lastPos := Some(i);
        }
      } else {
        ScanEnds(lv, level, b, i, inRange, significantRange, firstPos, lastPos);
        visual := FinishRange(lv, level, b, i, significantRange, firstPos, lastPos, v0, visual);
        inRange := false;
        firstPos, lastPos := None, None;
        b := i + 1;
      }
      i := i + 1;
    }
    ScanEnds(lv, level, b, i, inRange, significantRange, firstPos, lastPos);
    visual := FinishRange(lv, level, b, i, significantRange, firstPos, lastPos, v0, visual);
  }

  // ---------------------------------------------------------------- where each character ends up

  /** The least level among the visible characters of `[i..j]`. */
  function MinVisible(lv: seq<int>, i: nat, j: nat): (m: int)
    requires i <= j < |lv| && Visible(lv[i])
    ensures forall k :: i <= k <= j && Visible(lv[k]) ==> m <= lv[k]
  {
    if i == j then lv[i]
    else if Visible(lv[j]) then Min(MinVisible(lv, i, j - 1), lv[j])
    else MinVisible(lv, i, j - 1)
  }

  lemma MinVisibleAttained(lv: seq<int>, i: nat, j: nat) returns (k: nat)
    requires i <= j < |lv| && Visible(lv[i])
    ensures i <= k <= j && Visible(lv[k]) && lv[k] == MinVisible(lv, i, j)
  {
    if i == j || (Visible(lv[j]) && MinVisible(lv, i, j - 1) >= lv[j]) {
      k := j;
    } else {
      k := MinVisibleAttained(lv, i, j - 1);
    }
  }

  /** `pos[i]` is the place of line position `i` in the visual order `v`. */
  ghost predicate Tracks(lv: seq<int>, first: nat, v: seq<int>, pos: seq<int>) {
    && |v| == |pos| == |lv|
    && (forall i {:trigger pos[i]} ::
          0 <= i < |lv| && Visible(lv[i]) ==> 0 <= pos[i] < |v| && v[pos[i]] == first + i)
    && (forall p {:trigger ShowsAt(lv, first, v, pos, p)} ::
          0 <= p < |v| ==> ShowsAt(lv, first, v, pos, p))
  }

  /** The entry at place `p` is a removed character or the one that `pos` puts there. */
  ghost predicate ShowsAt(lv: seq<int>, first: nat, v: seq<int>, pos: seq<int>, p: int)
    requires 0 <= p < |v| == |pos| == |lv|
  {
    v[p] != DELETED ==>
      var i := v[p] - first;
      0 <= i < |lv| && Visible(lv[i]) && pos[i] == p
  }

  ghost predicate Contained(lv: seq<int>, t: int, pos: seq<int>)
    requires |pos| == |lv|
  {
    && (forall i {:trigger pos[i]} :: 0 <= i < |lv| && Low(lv, t, i) ==> pos[i] == i)
    && (forall b, e, i {:trigger Stretch(lv, t, b, e), pos[i]} ::
          Stretch(lv, t, b, e) && b <= i < e && Visible(lv[i]) ==>
          FirstIn(lv, b) <= pos[i] < e)
  }

  /** `pos` puts the characters in the order that `before` says, for `i < j`. */
  ghost predicate Ordered(lv: seq<int>, pos: seq<int>, before: (int, int) -> bool)
    requires |pos| == |lv|
  {
    forall i, j {:trigger before(i, j)} ::
      0 <= i < j < |lv| && Visible(lv[i]) && Visible(lv[j]) ==> (pos[i] < pos[j] <==> before(i, j))
  }

  /** Two characters have been swapped once by every pass down to `t` that had both in its range. */
  predicate EvenFlips(m: int, t: int) {
    m < t || (m - t) % 2 == 1
  }

  ghost function AfterPasses(lv: seq<int>, t: int): (int, int) -> bool {
    (i, j) => 0 <= i <= j < |lv| && Visible(lv[i]) && EvenFlips(MinVisible(lv, i, j), t)
  }

  /** `mv[p]` is where a pass moves the entry at place `p`. */
  ghost predicate Moves(lv: seq<int>, t: int, v: seq<int>, v': seq<int>, mv: seq<int>) {
    && |lv| == |v| == |v'| == |mv|
    && (forall p {:trigger mv[p]} :: 0 <= p < |lv| && Low(lv, t, p) ==> mv[p] == p)
    && (forall b, e, p {:trigger Stretch(lv, t, b, e), mv[p]} :: Stretch(lv, t, b, e) && b <= p < e ==>
          mv[p] == MirrorIn(lv, b, e, p, Flipped(lv, b, e, v, v')))
  }

  function MirrorIn(lv: seq<int>, b: nat, e: int, p: int, flipped: bool): int
    requires b <= |lv|
  {
    if flipped && FirstIn(lv, b) <= p then FirstIn(lv, b) + e - 1 - p else p
  }

  ghost predicate Involution(v: seq<int>, v': seq<int>, mv: seq<int>) {
    && |v| == |v'| == |mv|
    && forall p {:trigger mv[p]} :: 0 <= p < |v| ==>
         0 <= mv[p] < |v| && v'[mv[p]] == v[p] && v'[p] == v[mv[p]] && mv[mv[p]] == p
  }

  lemma MoveTarget(lv: seq<int>, t: int, v: seq<int>, v': seq<int>, p: int) returns (q: int)
    requires 0 <= p < |lv| && Pass(lv, t, v, v')
    ensures 0 <= q < |lv| && v'[q] == v[p] && v'[p] == v[q]
    ensures Low(lv, t, p) ==> q == p
    ensures forall b, e :: Stretch(lv, t, b, e) && b <= p < e ==>
      b <= q < e && q == MirrorIn(lv, b, e, p, Flipped(lv, b, e, v, v'))
  {
    if Low(lv, t, p) {
      q := p;
      return;
    }
    var b, e := StretchAround(lv, t, p);
    q := MirrorIn(lv, b, e, p, Flipped(lv, b, e, v, v'));
    assert StretchDone(lv, b, e, v, v');
    forall b', e' | Stretch(lv, t, b', e') && b' <= p < e' ensures b' == b && e' == e {
      StretchUnique(lv, t, b, e, b', e');
    }
  }

  lemma PassMoves(lv: seq<int>, t: int, v: seq<int>, v': seq<int>) returns (mv: seq<int>)
    requires Pass(lv, t, v, v')
    ensures Moves(lv, t, v, v', mv) && Involution(v, v', mv)
  {
    mv := [];
    while |mv| < |lv|
      invariant |mv| <= |lv|
      invariant forall p {:trigger mv[p]} :: 0 <= p < |mv| ==>
        && 0 <= mv[p] < |lv| && v'[mv[p]] == v[p] && v'[p] == v[mv[p]]
        && (Low(lv, t, p) ==> mv[p] == p)
      invariant forall b, e, p {:trigger Stretch(lv, t, b, e), mv[p]} ::
        Stretch(lv, t, b, e) && b <= p < e && p < |mv| ==>
          b <= mv[p] < e && mv[p] == MirrorIn(lv, b, e, p, Flipped(lv, b, e, v, v'))
    {
      var q := MoveTarget(lv, t, v, v', |mv|);
      mv := mv + [q];
    }
    forall p {:trigger mv[p]} | 0 <= p < |lv| ensures mv[mv[p]] == p {
      if !Low(lv, t, p) {
        var b, e := StretchAround(lv, t, p);
        assert b <= mv[p] < e;
      }
    }
  }

  /** Every stretch above `t` lies inside one above `t - 1`. */
  lemma ContainedCoarser(lv: seq<int>, t: int, pos: seq<int>)
    requires |pos| == |lv| && Contained(lv, t + 1, pos)
    ensures Contained(lv, t, pos)
  {
    forall i {:trigger pos[i]} | 0 <= i < |lv| && Low(lv, t, i) ensures pos[i] == i {
      assert Low(lv, t + 1, i);
    }
    forall b, e, i {:trigger Stretch(lv, t, b, e), pos[i]} |
      Stretch(lv, t, b, e) && b <= i < e && Visible(lv[i])
      ensures FirstIn(lv, b) <= pos[i] < e
    {
      if Low(lv, t + 1, i) {
        assert pos[i] == i;
      } else {
        var b', e' := StretchAround(lv, t + 1, i);
        assert b != 0 ==> Low(lv, t, b - 1) && Low(lv, t + 1, b - 1);
        assert e != |lv| ==> Low(lv, t, e) && Low(lv, t + 1, e);
        assert b <= b' && e' <= e;
      }
    }
  }

  lemma PassContained(lv: seq<int>, t: int, v: seq<int>, v': seq<int>, mv: seq<int>,
                      pos: seq<int>, pos': seq<int>)
    requires Moves(lv, t, v, v', mv) && |pos| == |pos'| == |lv| && Contained(lv, t, pos)
    requires forall i {:trigger pos'[i]} ::
      0 <= i < |lv| && Visible(lv[i]) ==> 0 <= pos[i] < |lv| && pos'[i] == mv[pos[i]]
    ensures Contained(lv, t, pos')
  {
  }

  /** No character crosses a low one. */
  lemma BoundedBy(lv: seq<int>, t: int, pos: seq<int>, i: int, z: int)
    requires |pos| == |lv| && Contained(lv, t, pos)
    requires 0 <= i < |lv| && 0 <= z < |lv| && Visible(lv[i]) && Low(lv, t, z)
    ensures i < z ==> pos[i] < z
    ensures i == z ==> pos[i] == z
    ensures z < i ==> z < pos[i]
  {
    if !Low(lv, t, i) {
      var b, e := StretchAround(lv, t, i);
      assert !(b <= z < e);
      assert FirstIn(lv, b) <= pos[i] < e;
    }
  }

  /** Two characters change order in a pass exactly when no low character stands between them. */
  lemma PassOrder(lv: seq<int>, t: int, v: seq<int>, v': seq<int>, mv: seq<int>,
                  pos: seq<int>, pos': seq<int>, i: int, j: int)
    requires Pass(lv, t, v, v') && Moves(lv, t, v, v', mv)
    requires |pos| == |pos'| == |lv| && Contained(lv, t, pos) && Contained(lv, t, pos')
    requires 0 <= i < j < |lv| && Visible(lv[i]) && Visible(lv[j])
    requires 0 <= pos[i] < |lv| && pos'[i] == mv[pos[i]]
    requires 0 <= pos[j] < |lv| && pos'[j] == mv[pos[j]] && pos[i] != pos[j]
    ensures MinVisible(lv, i, j) < t ==> pos'[i] < pos'[j]
    ensures t <= MinVisible(lv, i, j) ==> (pos'[i] < pos'[j] <==> pos[j] < pos[i])
  {
    if MinVisible(lv, i, j) < t {
      var z := MinVisibleAttained(lv, i, j);
      BoundedBy(lv, t, pos', i, z);
      BoundedBy(lv, t, pos', j, z);
    } else {
      var b, e := StretchAround(lv, t, i);
      assert forall k :: i <= k <= j ==> !Low(lv, t, k);
      assert j < e;
      assert StretchDone(lv, b, e, v, v');
      assert !Kept(lv, b, e, v, v');
      assert FirstIn(lv, b) <= pos[i] < e && FirstIn(lv, b) <= pos[j] < e;
    }
  }

  lemma PassOrderFlips(lv: seq<int>, t: int, v: seq<int>, v': seq<int>, mv: seq<int>,
                       pos: seq<int>, pos': seq<int>, i: int, j: int)
    requires Pass(lv, t, v, v') && Moves(lv, t, v, v', mv)
    requires |pos| == |pos'| == |lv| && Contained(lv, t, pos) && Contained(lv, t, pos')
    requires 0 <= i < j < |lv| && Visible(lv[i]) && Visible(lv[j])
    requires 0 <= pos[i] < |lv| && pos'[i] == mv[pos[i]]
    requires 0 <= pos[j] < |lv| && pos'[j] == mv[pos[j]] && pos[i] != pos[j]
    requires pos[i] < pos[j] <==> AfterPasses(lv, t + 1)(i, j)
    ensures pos'[i] < pos'[j] <==> AfterPasses(lv, t)(i, j)
  {
    PassOrder(lv, t, v, v', mv, pos, pos', i, j);
  }

  lemma InvolutionTracks(lv: seq<int>, first: nat, v: seq<int>, v': seq<int>, mv: seq<int>,
                         pos: seq<int>, pos': seq<int>)
    requires Tracks(lv, first, v, pos) && Involution(v, v', mv) && |pos'| == |lv|
    requires forall i {:trigger pos'[i]} :: 0 <= i < |lv| && Visible(lv[i]) ==> pos'[i] == mv[pos[i]]
    ensures Tracks(lv, first, v', pos')
  {
    forall p | 0 <= p < |v'| ensures ShowsAt(lv, first, v', pos', p) {
      assert ShowsAt(lv, first, v, pos, mv[p]);
    }
  }

  lemma TrackedDistinct(lv: seq<int>, first: nat, v: seq<int>, pos: seq<int>, i: int, j: int)
    requires Tracks(lv, first, v, pos)
    requires 0 <= i < j < |lv| && Visible(lv[i]) && Visible(lv[j])
    ensures 0 <= pos[i] < |lv| && 0 <= pos[j] < |lv| && pos[i] != pos[j]
  {
  }

  /** What a pass at level `t` does to the places, when all higher passes are done. */
  lemma PassPlaces(lv: seq<int>, first: nat, t: int, v: seq<int>, v': seq<int>, pos: seq<int>)
    returns (pos': seq<int>)
    requires Pass(lv, t, v, v') && Tracks(lv, first, v, pos)
    requires Contained(lv, t + 1, pos) && Ordered(lv, pos, AfterPasses(lv, t + 1))
    ensures Tracks(lv, first, v', pos') && Contained(lv, t, pos')
    ensures Ordered(lv, pos', AfterPasses(lv, t))
  {
    var mv := PassMoves(lv, t, v, v');
    pos' := seq(|lv|, i requires 0 <= i < |lv| => if 0 <= pos[i] < |lv| then mv[pos[i]] else 0);
    InvolutionTracks(lv, first, v, v', mv, pos, pos');
    ContainedCoarser(lv, t, pos);
    PassContained(lv, t, v, v', mv, pos, pos');
    var before := AfterPasses(lv, t);
    forall i, j {:trigger before(i, j)} | 0 <= i < j < |lv| && Visible(lv[i]) && Visible(lv[j])
      ensures pos'[i] < pos'[j] <==> before(i, j)
    {
      TrackedDistinct(lv, first, v, pos, i, j);
      assert AfterPasses(lv, t + 1)(i, j) <==> pos[i] < pos[j];
      PassOrderFlips(lv, t, v, v', mv, pos, pos', i, j);
    }
  }

  // ---------------------------------------------------------------- the whole rule

  function Highest(lv: seq<int>): (h: int)
    ensures 0 <= h
    ensures forall p :: 0 <= p < |lv| ==> lv[p] <= h
  {
    if lv == [] then 0
    else var h := Highest(lv[..|lv| - 1]);
      assert forall p :: 0 <= p < |lv| - 1 ==> lv[p] == lv[..|lv| - 1][p];
      Max(h, lv[|lv| - 1])
  }

  /** The lowest odd level below 126, or the value 126 that `reverse_levels` starts from. */
  function LowestOdd(lv: seq<int>): (lo: int)
    ensures 0 < lo <= MAX_RESOLVED_LEVEL
    ensures forall p :: 0 <= p < |lv| && OddLevel(lv[p]) ==> lo <= lv[p] || lv[p] > MAX_RESOLVED_LEVEL
    ensures lo == MAX_RESOLVED_LEVEL || (OddLevel(lo) && lo in lv)
  {
    if lv == [] then MAX_RESOLVED_LEVEL
    else
      var lo, l := LowestOdd(lv[..|lv| - 1]), lv[|lv| - 1];
      assert forall p :: 0 <= p < |lv| - 1 ==> lv[p] == lv[..|lv| - 1][p];
      if OddLevel(l) && l < lo then l else lo
  }

  /** The places that `visual.retain` keeps. */
  function Places(v: seq<int>): (ps: seq<nat>)
    ensures forall q :: 0 <= q < |ps| ==> ps[q] < |v| && v[ps[q]] != DELETED
    ensures forall q, r :: 0 <= q < r < |ps| ==> ps[q] < ps[r]
    ensures forall p :: 0 <= p < |v| && v[p] != DELETED ==> p in ps
  {
    if v == [] then []
    else
      var n, v' := |v| - 1, v[..|v| - 1];
      assert forall p :: 0 <= p < n ==> v'[p] == v[p];
      if v[n] != DELETED then Places(v') + [n] else Places(v')
  }

  function Retain(v: seq<int>): (out: seq<int>)
    ensures |out| == |Places(v)|
    ensures forall q :: 0 <= q < |out| ==> out[q] == v[Places(v)[q]]
  {
    var ps := Places(v);
    seq(|ps|, q requires 0 <= q < |ps| => v[ps[q]])
  }

  /** `out` lists each visible character of the line once. */
  ghost predicate ListsVisible(lv: seq<int>, first: nat, out: seq<int>) {
    && (forall q {:trigger out[q]} ::
          0 <= q < |out| ==> 0 <= out[q] - first < |lv| && Visible(lv[out[q] - first]))
    && (forall q, r {:trigger out[q], out[r]} :: 0 <= q < r < |out| ==> out[q] != out[r])
    && (forall i {:trigger Shows(out, first, i)} :: 0 <= i < |lv| && Visible(lv[i]) ==> Shows(out, first, i))
  }

  predicate Shows(out: seq<int>, first: int, i: int) {
    first + i in out
  }

  /** The entries stand in the order that `before` says. */
  ghost predicate OrderedBy(first: nat, out: seq<int>, before: (int, int) -> bool) {
    forall q, r {:trigger out[q], out[r]} ::
      0 <= q < r < |out| ==> InOrder(before, out[q] - first, out[r] - first)
  }

  predicate InOrder(before: (int, int) -> bool, i: int, j: int) {
    if i < j then before(i, j) else !before(j, i)
  }

  /** `out` shows the places `ps` of `v`, all but the removed entries. */
  ghost predicate Retained(v: seq<int>, out: seq<int>, ps: seq<nat>) {
    && |out| == |ps|
    && (forall q {:trigger ps[q]} :: 0 <= q < |ps| ==> ps[q] < |v| && v[ps[q]] == out[q] != DELETED)
    && (forall q, r {:trigger ps[q], ps[r]} :: 0 <= q < r < |ps| ==> ps[q] < ps[r])
    && (forall p {:trigger v[p]} :: 0 <= p < |v| && v[p] != DELETED ==> p in ps)
  }

  lemma RetainIsRetained(v: seq<int>)
    ensures Retained(v, Retain(v), Places(v))
  {
  }

  lemma RetainsVisible(lv: seq<int>, first: nat, v: seq<int>, pos: seq<int>, out: seq<int>, ps: seq<nat>,
                       i: nat)
    requires Tracks(lv, first, v, pos) && first + |lv| <= DELETED && Retained(v, out, ps)
    requires i < |lv| && Visible(lv[i])
    ensures first + i in out
  {
    var p := pos[i];
    assert v[p] == first + i;
    var q :| 0 <= q < |ps| && ps[q] == p;
    assert out[q] == first + i;
  }

  lemma RetainedDistinct(v: seq<int>, lv: seq<int>, first: nat, pos: seq<int>, out: seq<int>, ps: seq<nat>,
                         q: nat, r: nat)
    requires Tracks(lv, first, v, pos) && Retained(v, out, ps) && q < r < |out|
    ensures out[q] != out[r]
  {
    assert ps[q] < ps[r];
    assert ShowsAt(lv, first, v, pos, ps[q]) && ShowsAt(lv, first, v, pos, ps[r]);
  }

  lemma RetainLists(lv: seq<int>, first: nat, v: seq<int>, pos: seq<int>, out: seq<int>, ps: seq<nat>)
    requires Tracks(lv, first, v, pos) && first + |lv| <= DELETED && Retained(v, out, ps)
    ensures ListsVisible(lv, first, out)
  {
    forall q {:trigger out[q]} | 0 <= q < |out|
      ensures 0 <= out[q] - first < |lv| && Visible(lv[out[q] - first])
    {
      assert ShowsAt(lv, first, v, pos, ps[q]);
    }
    forall q, r {:trigger out[q], out[r]} | 0 <= q < r < |out| ensures out[q] != out[r] {
      RetainedDistinct(v, lv, first, pos, out, ps, q, r);
    }
    forall i | 0 <= i < |lv| && Visible(lv[i]) ensures Shows(out, first, i) {
      RetainsVisible(lv, first, v, pos, out, ps, i);
    }
  }

  lemma RetainOrdered(lv: seq<int>, first: nat, v: seq<int>, pos: seq<int>, before: (int, int) -> bool,
                      out: seq<int>, ps: seq<nat>)
    requires Tracks(lv, first, v, pos) && Ordered(lv, pos, before) && Retained(v, out, ps)
    ensures OrderedBy(first, out, before)
  {
    forall q, r {:trigger out[q], out[r]} | 0 <= q < r < |out|
      ensures InOrder(before, out[q] - first, out[r] - first)
    {
      assert ps[q] < ps[r];
      assert ShowsAt(lv, first, v, pos, ps[q]) && ShowsAt(lv, first, v, pos, ps[r]);
      assert before(out[q] - first, out[r] - first) || !before(out[q] - first, out[r] - first);
      assert before(out[r] - first, out[q] - first) || !before(out[r] - first, out[q] - first);
    }
  }

  lemma InitialPlaces(lv: seq<int>, first: nat, v: seq<int>, t: int, pos: seq<int>)
    requires |v| == |lv| == |pos| && forall p :: 0 <= p < |lv| ==> lv[p] < t
    requires forall i {:trigger pos[i]} :: 0 <= i < |lv| ==> pos[i] == i
    requires forall p :: 0 <= p < |lv| ==> v[p] == if Visible(lv[p]) then first + p else DELETED
    ensures Tracks(lv, first, v, pos) && Contained(lv, t, pos) && Ordered(lv, pos, AfterPasses(lv, t))
  {
    forall p | 0 <= p < |v| ensures ShowsAt(lv, first, v, pos, p) {
    }
    var before := AfterPasses(lv, t);
    forall i, j {:trigger before(i, j)} | 0 <= i < j < |lv| && Visible(lv[i]) && Visible(lv[j])
      ensures before(i, j)
    {
      assert MinVisible(lv, i, j) <= lv[i];
    }
  }

  method LevelBounds(lv: seq<int>) returns (highestLevel: int, lowestOddLevel: int, noLevels: bool)
    ensures highestLevel == Highest(lv) && lowestOddLevel == LowestOdd(lv)
    ensures noLevels <==> forall q :: 0 <= q < |lv| ==> !Visible(lv[q])
  {
    highestLevel := 0;
    lowestOddLevel := MAX_DEPTH + 1;
    noLevels := true;
    for p := 0 to |lv|
      invariant highestLevel == Highest(lv[..p])
      invariant lowestOddLevel == LowestOdd(lv[..p])
      invariant noLevels <==> forall q :: 0 <= q < p ==> !Visible(lv[q])
    {
      assert lv[..p + 1][..p] == lv[..p];
      if !Visible(lv[p]) {
        continue;
      }
      noLevels := false;
      highestLevel := Max(highestLevel, lv[p]);
      if OddLevel(lv[p]) && lv[p] < lowestOddLevel {
        lowestOddLevel := lv[p];
      }
    }
    assert lv[..|lv|] == lv;
  }

  method InitialVisual(firstCidx: nat, lv: seq<int>) returns (visual: seq<int>)
    ensures |visual| == |lv|
    ensures forall p :: 0 <= p < |lv| ==> visual[p] == if Visible(lv[p]) then firstCidx + p else DELETED
  {
    visual := [];
    for i := 0 to |lv|
      invariant |visual| == i
      invariant forall p :: 0 <= p < i ==> visual[p] == if Visible(lv[p]) then firstCidx + p else DELETED
    {
      visual := visual + [if !Visible(lv[i]) then DELETED else firstCidx + i];
    }
  }
}
