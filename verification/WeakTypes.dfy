/** Rules W1 to W7 on one text chain, stated simultaneously: every value is that of the chain before
    the rule. */
module WeakTypes {
  import opened BidiTypes

  /** Exactly the characters that X9 removed have no level. */
  ghost predicate Consistent(g: seq<BidiClass>, lv: seq<int>) {
    && |g| == |lv|
    && forall k {:trigger g[k]} {:trigger lv[k]} :: 0 <= k < |g| ==> (Visible(lv[k]) <==> !g[k].IsRemovedByX9())
  }

  // ---------------------------------------------------------------- visible neighbours

  /** The nearest visible position before `k`, or -1. */
  function PrevVisible(lv: seq<int>, k: nat): (p: int)
    requires k <= |lv|
    ensures -1 <= p < k
    ensures 0 <= p ==> Visible(lv[p])
    ensures forall j {:trigger lv[j]} :: p < j < k ==> !Visible(lv[j])
  {
    if k == 0 then -1 else if Visible(lv[k - 1]) then k - 1 else PrevVisible(lv, k - 1)
  }

  /** The nearest visible position from `k` on, or the length of the chain. */
  function NextVisible(lv: seq<int>, k: nat): (p: nat)
    requires k <= |lv|
    ensures k <= p <= |lv|
    ensures p < |lv| ==> Visible(lv[p])
    ensures forall j {:trigger lv[j]} :: k <= j < p ==> !Visible(lv[j])
    decreases |lv| - k
  {
    if k == |lv| then k else if Visible(lv[k]) then k else NextVisible(lv, k + 1)
  }

  // ---------------------------------------------------------------- the rules

  /** W1: the class of the nearest earlier visible character that is not a nonspacing mark. */
  function MarkBase(g: seq<BidiClass>, lv: seq<int>, sos: BidiClass, k: nat): BidiClass
    requires k <= |g| == |lv|
  {
    if k == 0 then sos
    else if Visible(lv[k - 1]) && !g[k - 1].NonspacingMark? then g[k - 1]
    else MarkBase(g, lv, sos, k - 1)
  }

  function W1At(g: seq<BidiClass>, lv: seq<int>, sos: BidiClass, k: nat): BidiClass
    requires k < |g| == |lv|
  {
    if g[k].NonspacingMark? then MarkBase(g, lv, sos, k) else g[k]
  }

  /** The nearest earlier L, R or (when `al`) AL, or sos. */
  function LastStrong(g: seq<BidiClass>, al: bool, sos: BidiClass, k: nat): BidiClass
    requires k <= |g|
  {
    if k == 0 then sos
    else if g[k - 1].LeftToRight? || g[k - 1].RightToLeft? || (al && g[k - 1].ArabicLetter?) then g[k - 1]
    else LastStrong(g, al, sos, k - 1)
  }

  function W2At(g: seq<BidiClass>, sos: BidiClass, k: nat): BidiClass
    requires k < |g|
  {
    if g[k].EuropeanNumber? && LastStrong(g, true, sos, k).ArabicLetter? then ArabicNumber else g[k]
  }

  function W3At(g: seq<BidiClass>, k: nat): BidiClass
    requires k < |g|
  {
    if g[k].ArabicLetter? then RightToLeft else g[k]
  }

  /** Both visible neighbours of `k` have class `c`. */
  predicate Between(g: seq<BidiClass>, lv: seq<int>, k: nat, c: BidiClass)
    requires k < |g| == |lv|
  {
    var p, n := PrevVisible(lv, k), NextVisible(lv, k + 1);
    0 <= p && n < |g| && g[p] == c && g[n] == c
  }

  function W4At(g: seq<BidiClass>, lv: seq<int>, k: nat): BidiClass
    requires k < |g| == |lv|
  {
    if (g[k].EuropeanSeparator? || g[k].CommonSeparator?) && Between(g, lv, k, EuropeanNumber) then EuropeanNumber
    else if g[k].CommonSeparator? && Between(g, lv, k, ArabicNumber) then ArabicNumber
    else g[k]
  }

  /** Nothing but terminators and removed characters stands between `p` and `q`. */
  ghost predicate Joined(g: seq<BidiClass>, lv: seq<int>, p: int, q: int)
    requires |g| == |lv|
  {
    forall j {:trigger g[j]} :: 0 <= j < |g| && Min(p, q) < j < Max(p, q) ==>
      g[j].EuropeanTerminator? || !Visible(lv[j])
  }

  /** Some European number before `limit` touches the block of terminators around `k`. */
  ghost predicate Touched(g: seq<BidiClass>, lv: seq<int>, k: int, limit: int)
    requires |g| == |lv|
  {
    exists q {:trigger g[q]} :: 0 <= q < limit && q < |g| && g[q].EuropeanNumber? && Joined(g, lv, k, q)
  }

  ghost function W5At(g: seq<BidiClass>, lv: seq<int>, k: nat): BidiClass
    requires k < |g| == |lv|
  {
    if g[k].EuropeanTerminator? && Touched(g, lv, k, |g|) then EuropeanNumber else g[k]
  }

  function W6At(g: seq<BidiClass>, k: nat): BidiClass
    requires k < |g|
  {
    if g[k].EuropeanSeparator? || g[k].CommonSeparator? || g[k].EuropeanTerminator? then OtherNeutral else g[k]
  }

  function W7At(g: seq<BidiClass>, sos: BidiClass, k: nat): BidiClass
    requires k < |g|
  {
    if g[k].EuropeanNumber? && LastStrong(g, false, sos, k).LeftToRight? then LeftToRight else g[k]
  }

  // ---------------------------------------------------------------- in place is simultaneous

  /** The chain when a rule with result `r` has been applied up to `k`. */
  ghost predicate UpTo(g: seq<BidiClass>, r: seq<BidiClass>, cur: seq<BidiClass>, k: int) {
    && |g| == |r| == |cur|
    && forall j {:trigger cur[j]} :: 0 <= j < |g| ==> cur[j] == if j < k then r[j] else g[j]
  }

  ghost predicate DownTo(g: seq<BidiClass>, r: seq<BidiClass>, cur: seq<BidiClass>, k: int) {
    && |g| == |r| == |cur|
    && forall j {:trigger cur[j]} :: 0 <= j < |g| ==> cur[j] == if j < k then g[j] else r[j]
  }

  /** W2 in place: an EN turned into AN is not strong, so the search back is not disturbed. */
  lemma {:induction false} StrongUndisturbed(g: seq<BidiClass>, cur: seq<BidiClass>, al: bool, sos: BidiClass, k: nat)
    requires k <= |g| == |cur|
    requires forall j {:trigger cur[j]} :: 0 <= j < k ==>
      cur[j] == g[j] || (g[j].EuropeanNumber? && cur[j].ArabicNumber?)
    ensures LastStrong(cur, al, sos, k) == LastStrong(g, al, sos, k)
    decreases k
  {
    if 0 < k {
      StrongUndisturbed(g, cur, al, sos, k - 1);
    }
  }

  /** W4 in place: the neighbour before a separator is not itself a separator that has changed. */
  lemma W4InPlace(g: seq<BidiClass>, lv: seq<int>, cur: seq<BidiClass>, k: nat, c: BidiClass)
    requires Consistent(g, lv) && k < |g| == |cur| && (c.EuropeanNumber? || c.ArabicNumber?)
    requires g[k].EuropeanSeparator? || g[k].CommonSeparator?
    requires forall j {:trigger cur[j]} :: 0 <= j < |g| ==> cur[j] == if j < k then W4At(g, lv, j) else g[j]
    ensures Between(cur, lv, k, c) == Between(g, lv, k, c)
  {
  }

  /** The chain when W5 has searched the positions below `i` for European numbers. */
  ghost predicate W5Done(g: seq<BidiClass>, lv: seq<int>, cur: seq<BidiClass>, i: int) {
    && |g| == |lv| == |cur|
    && forall k {:trigger cur[k]} :: 0 <= k < |g| ==>
         cur[k] == if g[k].EuropeanTerminator? && Touched(g, lv, k, i) then EuropeanNumber else g[k]
  }

  /** What the two scans from the number at `i` do. */
  ghost predicate Filled(cur: seq<BidiClass>, lv: seq<int>, cur': seq<BidiClass>, i: int) {
    && |cur| == |cur'| == |lv|
    && forall k {:trigger cur'[k]} :: 0 <= k < |cur| ==>
         cur'[k] == if cur[k].EuropeanTerminator? && Joined(cur, lv, k, i) then EuropeanNumber else cur[k]
  }

  predicate StopsScan(cur: seq<BidiClass>, lv: seq<int>, j: nat)
    requires j < |cur| == |lv|
  {
    !cur[j].EuropeanTerminator? && Visible(lv[j])
  }

  /** A scan that has met no obstacle has changed the terminators of `[a..b)`. */
  ghost predicate Scanned(cur: seq<BidiClass>, lv: seq<int>, cur': seq<BidiClass>, a: int, b: int) {
    && |cur| == |lv| == |cur'| && 0 <= a <= b <= |cur|
    && (forall j {:trigger StopsScan(cur, lv, j)} :: a <= j < b ==> !StopsScan(cur, lv, j))
    && (forall j {:trigger cur'[j]} :: 0 <= j < |cur| ==>
          cur'[j] == if a <= j < b && cur[j].EuropeanTerminator? then EuropeanNumber else cur[j])
  }

  lemma ScansFill(cur: seq<BidiClass>, lv: seq<int>, mid: seq<BidiClass>, cur': seq<BidiClass>, a: nat, i: nat, b: nat)
    requires i < |cur| && Scanned(cur, lv, mid, a, i) && Scanned(mid, lv, cur', i + 1, b)
    requires a == 0 || StopsScan(cur, lv, a - 1)
    requires b == |cur| || StopsScan(mid, lv, b)
    requires cur[i].EuropeanNumber?
    ensures Filled(cur, lv, cur', i)
  {
    forall k {:trigger cur'[k]} | 0 <= k < |cur|
      ensures cur'[k] == if cur[k].EuropeanTerminator? && Joined(cur, lv, k, i) then EuropeanNumber else cur[k]
    {
      if cur[k].EuropeanTerminator? {
        ScannedJoined(cur, lv, mid, cur', a, i, b, k);
      }
    }
  }

  lemma ScannedJoined(cur: seq<BidiClass>, lv: seq<int>, mid: seq<BidiClass>, cur': seq<BidiClass>,
                      a: nat, i: nat, b: nat, k: nat)
    requires i < |cur| && Scanned(cur, lv, mid, a, i) && Scanned(mid, lv, cur', i + 1, b)
    requires a == 0 || StopsScan(cur, lv, a - 1)
    requires b == |cur| || StopsScan(mid, lv, b)
    requires k < |cur| && k != i && cur[k].EuropeanTerminator?
    ensures Joined(cur, lv, k, i) <==> a <= k < b
  {
    if a <= k < b {
      forall j {:trigger cur[j]} | 0 <= j < |cur| && Min(k, i) < j < Max(k, i)
        ensures cur[j].EuropeanTerminator? || !Visible(lv[j])
      {
        assert if j < i then !StopsScan(cur, lv, j) else !StopsScan(mid, lv, j) && mid[j] == cur[j];
      }
    } else if k < a {
      assert k < a - 1;
      assert StopsScan(cur, lv, a - 1) && !cur[a - 1].EuropeanTerminator?;
    } else {
      assert StopsScan(mid, lv, b) && mid[b] == cur[b];
    }
  }

  lemma JoinedAcross(g: seq<BidiClass>, lv: seq<int>, a: int, b: int, c: int)
    requires |g| == |lv| && Joined(g, lv, a, b) && Joined(g, lv, b, c) && 0 <= b < |g| && g[b].EuropeanTerminator?
    ensures Joined(g, lv, a, c)
  {
  }

  lemma JoinedEarlier(g: seq<BidiClass>, lv: seq<int>, cur: seq<BidiClass>, i: int, a: int, b: int)
    requires W5Done(g, lv, cur, i) && Joined(cur, lv, a, b)
    ensures Joined(g, lv, a, b)
  {
    forall j {:trigger g[j]} | 0 <= j < |g| && Min(a, b) < j < Max(a, b)
      ensures g[j].EuropeanTerminator? || !Visible(lv[j])
    {
      assert cur[j].EuropeanTerminator? || !Visible(lv[j]);
    }
  }

  /** A terminator that the scans change touches the number at `i`, or nothing would be left to
      change. */
  lemma FilledSound(g: seq<BidiClass>, lv: seq<int>, cur: seq<BidiClass>, i: nat, k: nat)
    requires Consistent(g, lv) && W5Done(g, lv, cur, i) && i < |g| && k < |g|
    requires cur[i].EuropeanNumber? && cur[k].EuropeanTerminator? && Joined(cur, lv, k, i)
    ensures g[k].EuropeanTerminator? && Touched(g, lv, k, i + 1)
  {
    JoinedEarlier(g, lv, cur, i, k, i);
    if g[i].EuropeanTerminator? {
      var q :| 0 <= q < i && g[q].EuropeanNumber? && Joined(g, lv, i, q);
      JoinedAcross(g, lv, k, i, q);
      assert Touched(g, lv, k, i);
    } else {
      assert g[i].EuropeanNumber?;
    }
  }

  lemma FilledComplete(g: seq<BidiClass>, lv: seq<int>, cur: seq<BidiClass>, i: nat, k: nat)
    requires Consistent(g, lv) && W5Done(g, lv, cur, i) && i < |g| && k < |g|
    requires g[i].EuropeanNumber? && g[k].EuropeanTerminator? && Joined(g, lv, k, i)
    requires cur[k].EuropeanTerminator?
    ensures Joined(cur, lv, k, i)
  {
  }

  /** One round of W5. */
  lemma W5Round(g: seq<BidiClass>, lv: seq<int>, cur: seq<BidiClass>, cur': seq<BidiClass>, i: nat)
    requires Consistent(g, lv) && W5Done(g, lv, cur, i) && i < |g|
    requires if cur[i].EuropeanNumber? then Filled(cur, lv, cur', i) else cur' == cur
    ensures W5Done(g, lv, cur', i + 1)
  {
    forall k {:trigger cur'[k]} | 0 <= k < |g|
      ensures cur'[k] == if g[k].EuropeanTerminator? && Touched(g, lv, k, i + 1) then EuropeanNumber else g[k]
    {
      W5RoundAt(g, lv, cur, cur', i, k);
    }
  }

  lemma TouchedMore(g: seq<BidiClass>, lv: seq<int>, k: nat, i: nat)
    requires |g| == |lv| && i < |g|
    ensures Touched(g, lv, k, i) ==> Touched(g, lv, k, i + 1)
    ensures Touched(g, lv, k, i + 1) ==>
      Touched(g, lv, k, i) || (g[i].EuropeanNumber? && Joined(g, lv, k, i))
  {
  }

  lemma W5RoundAt(g: seq<BidiClass>, lv: seq<int>, cur: seq<BidiClass>, cur': seq<BidiClass>, i: nat, k: nat)
    requires Consistent(g, lv) && W5Done(g, lv, cur, i) && i < |g| && k < |g| == |cur'|
    requires cur'[k] == if cur[i].EuropeanNumber? && cur[k].EuropeanTerminator? && Joined(cur, lv, k, i)
                        then EuropeanNumber else cur[k]
    ensures cur'[k] == if g[k].EuropeanTerminator? && Touched(g, lv, k, i + 1) then EuropeanNumber else g[k]
  {
    TouchedMore(g, lv, k, i);
    if cur[k].EuropeanTerminator? {
      assert g[k].EuropeanTerminator? && !Touched(g, lv, k, i);
      if cur[i].EuropeanNumber? && Joined(cur, lv, k, i) {
        FilledSound(g, lv, cur, i, k);
      } else if g[i].EuropeanNumber? && Joined(g, lv, k, i) {
        assert cur[i].EuropeanNumber?;
        FilledComplete(g, lv, cur, i, k);
      }
    }
  }
}
