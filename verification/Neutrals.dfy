/** Rules N1 and N2 on one text chain. */
module Neutrals {
  import opened Options
  import opened BidiTypes
  import opened WeakTypes

  /** The direction that a class counts for: European and Arabic numbers count as R. */
  function StrongDirection(c: BidiClass): Option<Direction> {
    match c
    case LeftToRight => Some(LTR)
    case RightToLeft | EuropeanNumber | ArabicNumber => Some(RTL)
    case _ => None
  }

  predicate Stops(g: seq<BidiClass>, lv: seq<int>, k: nat)
    requires k < |g| == |lv|
  {
    Visible(lv[k]) && !g[k].IsNeutral()
  }

  /** The nearest visible character before `k` that is not neutral, or -1. */
  function StopBefore(g: seq<BidiClass>, lv: seq<int>, k: nat): (p: int)
    requires k <= |g| == |lv|
    ensures -1 <= p < k
    ensures 0 <= p ==> Stops(g, lv, p)
    ensures forall j {:trigger Stops(g, lv, j)} :: p < j < k ==> !Stops(g, lv, j)
  {
    if k == 0 then -1 else if Stops(g, lv, k - 1) then k - 1 else StopBefore(g, lv, k - 1)
  }

  function StopFrom(g: seq<BidiClass>, lv: seq<int>, k: nat): (p: nat)
    requires k <= |g| == |lv|
    ensures k <= p <= |g|
    ensures p < |g| ==> Stops(g, lv, p)
    ensures forall j {:trigger Stops(g, lv, j)} :: k <= j < p ==> !Stops(g, lv, j)
    decreases |g| - k
  {
    if k == |g| then k else if Stops(g, lv, k) then k else StopFrom(g, lv, k + 1)
  }

  function PriorDirection(g: seq<BidiClass>, lv: seq<int>, sos: BidiClass, k: nat): Option<Direction>
    requires k <= |g| == |lv|
  {
    var p := StopBefore(g, lv, k);
    StrongDirection(if p < 0 then sos else g[p])
  }

  function FollowingDirection(g: seq<BidiClass>, lv: seq<int>, eos: BidiClass, k: nat): Option<Direction>
    requires k <= |g| == |lv|
  {
    var n := StopFrom(g, lv, k);
    StrongDirection(if n == |g| then eos else g[n])
  }

  /** A strong character ends the search, and so does any other visible one that is not neutral. */
  lemma PriorStep(g: seq<BidiClass>, lv: seq<int>, sos: BidiClass, k: nat, c: BidiClass, level: int)
    requires Consistent(g, lv) && k < |g| && c == g[k] && level == lv[k]
    ensures PriorDirection(g, lv, sos, k + 1) ==
      if StrongDirection(c).Some? || (Visible(level) && !c.IsNeutral()) then StrongDirection(c)
      else PriorDirection(g, lv, sos, k)
  {
  }

  lemma PriorStart(g: seq<BidiClass>, lv: seq<int>, sos: BidiClass, d: Direction)
    requires |g| == |lv| && (sos.LeftToRight? || sos.RightToLeft?)
    ensures PriorDirection(g, lv, sos, 0) == Some(d) <==> sos == d.AsBidiClass()
  {
  }

  lemma FollowingStep(g: seq<BidiClass>, lv: seq<int>, eos: BidiClass, k: nat, c: BidiClass, level: int)
    requires Consistent(g, lv) && k < |g| && c == g[k] && level == lv[k]
    ensures FollowingDirection(g, lv, eos, k) ==
      if StrongDirection(c).Some? || (Visible(level) && !c.IsNeutral()) then StrongDirection(c)
      else FollowingDirection(g, lv, eos, k + 1)
  {
  }

  lemma FollowingEnd(g: seq<BidiClass>, lv: seq<int>, eos: BidiClass, d: Direction)
    requires |g| == |lv| && (eos.LeftToRight? || eos.RightToLeft?)
    ensures FollowingDirection(g, lv, eos, |g|) == Some(d) <==> eos == d.AsBidiClass()
  {
  }

  /** N1 */
  function N1At(g: seq<BidiClass>, lv: seq<int>, sos: BidiClass, eos: BidiClass, k: nat): BidiClass
    requires k < |g| == |lv|
  {
    BetweenDirections(g[k], PriorDirection(g, lv, sos, k), FollowingDirection(g, lv, eos, k + 1))
  }

  /** A neutral takes the direction on both sides of it, if it is the same. */
  function BetweenDirections(c: BidiClass, before: Option<Direction>, after: Option<Direction>): BidiClass {
    if c.IsNeutral() && before.Some? && before == after then before.value.AsBidiClass() else c
  }

  /** N2 */
  function N2At(g: seq<BidiClass>, lv: seq<int>, k: nat): BidiClass
    requires k < |g| == |lv|
  {
    if g[k].IsNeutral() then LevelClass(lv[k]) else g[k]
  }

  ghost predicate IsN1(g: seq<BidiClass>, lv: seq<int>, sos: BidiClass, eos: BidiClass, r: seq<BidiClass>) {
    && |r| == |g| == |lv|
    && forall k {:trigger N1At(g, lv, sos, eos, k)} :: 0 <= k < |g| ==> r[k] == N1At(g, lv, sos, eos, k)
  }

  // ---------------------------------------------------------------- in place from the right

  lemma {:induction false} SameStopBefore(g: seq<BidiClass>, cur: seq<BidiClass>, lv: seq<int>, k: nat)
    requires k <= |g| == |cur| == |lv| && g[..k] == cur[..k]
    ensures StopBefore(cur, lv, k) == StopBefore(g, lv, k)
    decreases k
  {
    if 0 < k {
      assert g[k - 1] == g[..k][k - 1] == cur[k - 1];
      assert g[..k - 1] == g[..k][..k - 1] == cur[..k - 1];
      SameStopBefore(g, cur, lv, k - 1);
    }
  }

  /** Between two stops every position sees the same directions. */
  lemma {:induction false} SameBlock(g: seq<BidiClass>, lv: seq<int>, i: nat, j: nat)
    requires i <= j < |g| == |lv|
    requires forall m {:trigger Stops(g, lv, m)} :: i <= m <= j ==> !Stops(g, lv, m)
    ensures StopBefore(g, lv, i) == StopBefore(g, lv, j)
    ensures StopFrom(g, lv, i + 1) == StopFrom(g, lv, j + 1)
    decreases j - i
  {
  }

  /** A position between `k` and the next stop is resolved by the directions around `k`. */
  lemma BlockValue(g: seq<BidiClass>, lv: seq<int>, sos: BidiClass, eos: BidiClass, k: nat, n: nat, j: nat)
    requires |g| == |lv| && k < j < n <= |g| && n == StopFrom(g, lv, k + 1) && !Stops(g, lv, k)
    ensures N1At(g, lv, sos, eos, j) ==
      BetweenDirections(g[j], PriorDirection(g, lv, sos, k), FollowingDirection(g, lv, eos, k + 1))
  {
    forall m {:trigger Stops(g, lv, m)} | k <= m <= j ensures !Stops(g, lv, m) {
    }
    SameBlock(g, lv, k, j);
  }

  /** The chain `cur` behind `k`, up to the next stop `n`, has been resolved by the directions `p`
      and `f` around `k`. */
  ghost predicate ResolvedBlock(g: seq<BidiClass>, cur: seq<BidiClass>, k: nat, n: nat,
                                p: Option<Direction>, f: Option<Direction>)
    requires k <= n <= |g| == |cur|
  {
    && (n < |g| ==> cur[n] == g[n])
    && forall j {:trigger cur[j]} :: k < j < n ==> cur[j] == BetweenDirections(g[j], p, f)
  }

  lemma {:induction false} StopFromPast(g: seq<BidiClass>, lv: seq<int>, k: nat, n: nat)
    requires k <= n <= |g| == |lv|
    requires n < |g| ==> Stops(g, lv, n)
    requires forall j {:trigger Stops(g, lv, j)} :: k <= j < n ==> !Stops(g, lv, j)
    ensures StopFrom(g, lv, k) == n
    decreases n - k
  {
  }

  /** The search forward through a resolved block finds the direction before `k` exactly when it
      would have at the start. */
  lemma FollowingUndisturbed(g: seq<BidiClass>, lv: seq<int>, eos: BidiClass, cur: seq<BidiClass>, k: nat,
                             p: Option<Direction>)
    requires Consistent(g, lv) && k < |g| == |cur|
    requires ResolvedBlock(g, cur, k, StopFrom(g, lv, k + 1), p, FollowingDirection(g, lv, eos, k + 1))
    ensures p.Some? ==> (FollowingDirection(cur, lv, eos, k + 1) == p
                         <==> FollowingDirection(g, lv, eos, k + 1) == p)
  {
    var n, f := StopFrom(g, lv, k + 1), FollowingDirection(g, lv, eos, k + 1);
    if p.Some? && p == f {
      FollowingResolved(g, lv, eos, cur, k, n, p);
    } else {
      FollowingKept(g, lv, eos, cur, k, n, p, f);
    }
  }

  lemma FollowingKept(g: seq<BidiClass>, lv: seq<int>, eos: BidiClass, cur: seq<BidiClass>, k: nat, n: nat,
                      p: Option<Direction>, f: Option<Direction>)
    requires |g| == |lv| && k < |g| == |cur| && n == StopFrom(g, lv, k + 1)
    requires ResolvedBlock(g, cur, k, n, p, f) && !(p.Some? && p == f)
    ensures FollowingDirection(cur, lv, eos, k + 1) == FollowingDirection(g, lv, eos, k + 1)
  {
    forall j {:trigger Stops(cur, lv, j)} | k + 1 <= j < n ensures !Stops(cur, lv, j) {
      assert !Stops(g, lv, j) && cur[j] == g[j];
    }
    assert n < |g| ==> Stops(g, lv, n);
    StopFromPast(cur, lv, k + 1, n);
  }

  lemma FollowingResolved(g: seq<BidiClass>, lv: seq<int>, eos: BidiClass, cur: seq<BidiClass>, k: nat, n: nat,
                          p: Option<Direction>)
    requires Consistent(g, lv) && k < |g| == |cur| && n == StopFrom(g, lv, k + 1)
    requires p.Some? && FollowingDirection(g, lv, eos, k + 1) == p
    requires ResolvedBlock(g, cur, k, n, p, p)
    ensures FollowingDirection(cur, lv, eos, k + 1) == p
  {
    var m := StopFrom(cur, lv, k + 1);
    if n < |g| {
      StillStops(g, lv, cur, n);
    }
    assert m <= n;
    if m < n {
      assert !Stops(g, lv, m) && Stops(cur, lv, m);
      ResolvedStops(g, lv, cur, k, n, m, p);
    }
  }

  lemma StillStops(g: seq<BidiClass>, lv: seq<int>, cur: seq<BidiClass>, n: nat)
    requires n < |g| == |lv| == |cur| && Stops(g, lv, n) && cur[n] == g[n]
    ensures Stops(cur, lv, n)
  {
  }

  lemma ResolvedStops(g: seq<BidiClass>, lv: seq<int>, cur: seq<BidiClass>, k: nat, n: nat, m: nat,
                      p: Option<Direction>)
    requires Consistent(g, lv) && k < m < n <= |g| == |cur| && p.Some? && ResolvedBlock(g, cur, k, n, p, p)
    requires !Stops(g, lv, m) && Stops(cur, lv, m)
    ensures StrongDirection(cur[m]) == p
  {
    assert cur[m] == BetweenDirections(g[m], p, p);
  }

  lemma StopStays(g: seq<BidiClass>, lv: seq<int>, sos: BidiClass, eos: BidiClass, n: nat)
    requires n < |g| == |lv| && Stops(g, lv, n)
    ensures N1At(g, lv, sos, eos, n) == g[n]
  {
  }

  lemma N1Block(g: seq<BidiClass>, lv: seq<int>, sos: BidiClass, eos: BidiClass, r: seq<BidiClass>,
                cur: seq<BidiClass>, k: nat, n: nat, p: Option<Direction>, f: Option<Direction>)
    requires k < |g| == |lv| && IsN1(g, lv, sos, eos, r) && DownTo(g, r, cur, k + 1) && !Stops(g, lv, k)
    requires n == StopFrom(g, lv, k + 1)
    requires p == PriorDirection(g, lv, sos, k) && f == FollowingDirection(g, lv, eos, k + 1)
    ensures ResolvedBlock(g, cur, k, n, p, f)
  {
    if n < |g| {
      StopStays(g, lv, sos, eos, n);
    }
    forall j {:trigger cur[j]} | k < j < n ensures cur[j] == BetweenDirections(g[j], p, f) {
      BlockValue(g, lv, sos, eos, k, n, j);
    }
  }

  lemma N1SameFollowing(g: seq<BidiClass>, lv: seq<int>, sos: BidiClass, eos: BidiClass, r: seq<BidiClass>,
                        cur: seq<BidiClass>, k: nat, p: Option<Direction>)
    requires Consistent(g, lv) && k < |g| && IsN1(g, lv, sos, eos, r) && DownTo(g, r, cur, k + 1)
    requires !Stops(g, lv, k) && p == PriorDirection(g, lv, sos, k)
    ensures p.Some? ==> (FollowingDirection(cur, lv, eos, k + 1) == p
                         <==> FollowingDirection(g, lv, eos, k + 1) == p)
  {
    N1Block(g, lv, sos, eos, r, cur, k, StopFrom(g, lv, k + 1), p, FollowingDirection(g, lv, eos, k + 1));
    FollowingUndisturbed(g, lv, eos, cur, k, p);
  }

  lemma N1StepNeutral(g: seq<BidiClass>, lv: seq<int>, sos: BidiClass, eos: BidiClass, r: seq<BidiClass>,
                      cur: seq<BidiClass>, k: nat, p: Option<Direction>, f: Option<Direction>, f': Option<Direction>)
    requires Consistent(g, lv) && k < |g| && IsN1(g, lv, sos, eos, r) && DownTo(g, r, cur, k + 1)
    requires g[k].IsNeutral() && p == PriorDirection(g, lv, sos, k)
    requires f == FollowingDirection(g, lv, eos, k + 1) && f' == FollowingDirection(cur, lv, eos, k + 1)
    ensures BetweenDirections(g[k], p, f) == BetweenDirections(g[k], p, f')
  {
    N1SameFollowing(g, lv, sos, eos, r, cur, k, p);
    SameDirections(g[k], p, f, f');
  }

  lemma N1StepOther(c: BidiClass, p: Option<Direction>, f: Option<Direction>)
    requires !c.IsNeutral()
    ensures BetweenDirections(c, p, f) == c
  {
  }

  /** One step of N1, from the right and in place. */
  lemma N1Step(g: seq<BidiClass>, lv: seq<int>, sos: BidiClass, eos: BidiClass, r: seq<BidiClass>,
               cur: seq<BidiClass>, k: nat)
    requires Consistent(g, lv) && k < |g| && IsN1(g, lv, sos, eos, r) && DownTo(g, r, cur, k + 1)
    ensures cur[k] == g[k] && N1At(cur, lv, sos, eos, k) == r[k]
  {
    var p := PriorDirection(g, lv, sos, k);
    var f, f' := FollowingDirection(g, lv, eos, k + 1), FollowingDirection(cur, lv, eos, k + 1);
    N1SamePrior(g, lv, sos, r, cur, k);
    if g[k].IsNeutral() {
      N1StepNeutral(g, lv, sos, eos, r, cur, k, p, f, f');
    } else {
      N1StepOther(g[k], p, f);
      N1StepOther(g[k], p, f');
    }
    assert N1At(cur, lv, sos, eos, k) == BetweenDirections(g[k], p, f');
    assert r[k] == N1At(g, lv, sos, eos, k) == BetweenDirections(g[k], p, f);
  }

  lemma SameDirections(c: BidiClass, p: Option<Direction>, f: Option<Direction>, f': Option<Direction>)
    requires p.Some? ==> (f == p <==> f' == p)
    ensures BetweenDirections(c, p, f) == BetweenDirections(c, p, f')
  {
  }

  lemma N1SamePrior(g: seq<BidiClass>, lv: seq<int>, sos: BidiClass, r: seq<BidiClass>, cur: seq<BidiClass>, k: nat)
    requires k < |g| == |lv| && DownTo(g, r, cur, k + 1)
    ensures PriorDirection(cur, lv, sos, k) == PriorDirection(g, lv, sos, k)
  {
    assert cur[..k] == g[..k];
    SameStopBefore(g, cur, lv, k);
  }

  // ---------------------------------------------------------------- blocks of neutrals

  /** The class that N1 and N2 together give. */
  function NeutralClass(g: seq<BidiClass>, lv: seq<int>, sos: BidiClass, eos: BidiClass, k: nat): BidiClass
    requires k < |g| == |lv|
  {
    var c := N1At(g, lv, sos, eos, k);
    if c.IsNeutral() then LevelClass(lv[k]) else c
  }

  /** Section 3.3.5 of UAX #9: every neutral of a block, removed characters skipped, gets the same
      class, the direction that the two strong neighbours share or else the embedding direction. */
  lemma BlockResolves(g: seq<BidiClass>, lv: seq<int>, sos: BidiClass, eos: BidiClass, level: int,
                      a: nat, b: nat, k: nat)
    requires Consistent(g, lv) && a <= k < b <= |g|
    requires forall m {:trigger Stops(g, lv, m)} :: a <= m < b ==> !Stops(g, lv, m)
    requires a == 0 || Stops(g, lv, a - 1)
    requires b == |g| || Stops(g, lv, b)
    requires Visible(lv[k]) && lv[k] == level
    ensures var before, after := StrongDirection(if a == 0 then sos else g[a - 1]),
                                 StrongDirection(if b == |g| then eos else g[b]);
            NeutralClass(g, lv, sos, eos, k) ==
              if before.Some? && before == after then before.value.AsBidiClass() else LevelClass(level)
  {
    var before := StrongDirection(if a == 0 then sos else g[a - 1]);
    var after := StrongDirection(if b == |g| then eos else g[b]);
    assert !Stops(g, lv, k);
    PriorPast(g, lv, sos, k, a, before);
    FollowingPast(g, lv, eos, k + 1, b, after);
    BlockClass(g, lv, sos, eos, level, k, before, after);
  }

  lemma PriorPast(g: seq<BidiClass>, lv: seq<int>, sos: BidiClass, k: nat, a: nat, d: Option<Direction>)
    requires a <= k <= |g| == |lv|
    requires a == 0 || Stops(g, lv, a - 1)
    requires forall j {:trigger Stops(g, lv, j)} :: a <= j < k ==> !Stops(g, lv, j)
    requires d == StrongDirection(if a == 0 then sos else g[a - 1])
    ensures PriorDirection(g, lv, sos, k) == d
  {
    StopBeforePast(g, lv, k, a);
  }

  lemma FollowingPast(g: seq<BidiClass>, lv: seq<int>, eos: BidiClass, k: nat, b: nat, d: Option<Direction>)
    requires k <= b <= |g| == |lv|
    requires b == |g| || Stops(g, lv, b)
    requires forall j {:trigger Stops(g, lv, j)} :: k <= j < b ==> !Stops(g, lv, j)
    requires d == StrongDirection(if b == |g| then eos else g[b])
    ensures FollowingDirection(g, lv, eos, k) == d
  {
    StopFromPast(g, lv, k, b);
  }

  lemma BlockClass(g: seq<BidiClass>, lv: seq<int>, sos: BidiClass, eos: BidiClass, level: int, k: nat,
                   before: Option<Direction>, after: Option<Direction>)
    requires |g| == |lv| && k < |g| && g[k].IsNeutral() && lv[k] == level
    requires before == PriorDirection(g, lv, sos, k) && after == FollowingDirection(g, lv, eos, k + 1)
    ensures NeutralClass(g, lv, sos, eos, k) ==
      if before.Some? && before == after then before.value.AsBidiClass() else LevelClass(level)
  {
  }

  lemma {:induction false} StopBeforePast(g: seq<BidiClass>, lv: seq<int>, k: nat, a: nat)
    requires a <= k <= |g| == |lv|
    requires a == 0 || Stops(g, lv, a - 1)
    requires forall j {:trigger Stops(g, lv, j)} :: a <= j < k ==> !Stops(g, lv, j)
    ensures StopBefore(g, lv, k) == a - 1
    decreases k
  {
    if a < k {
      assert !Stops(g, lv, k - 1);
      StopBeforePast(g, lv, k - 1, a);
    }
  }
}
