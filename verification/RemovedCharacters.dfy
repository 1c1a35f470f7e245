/** Section 5.2 of UAX #9: keeping the characters that X9 removes in the chains makes no difference.  A rule
    gives every visible character what it gives it in the chain without them. */
module RemovedCharacters {
  import opened BidiTypes
  import opened LevelRuns
  import opened WeakTypes
  import opened Neutrals
  import opened ChainRules

  // ---------------------------------------------------------------- dropping the removed characters

  /** `n[k]` visible positions stand before `k`. */
  ghost predicate Ranks(lv: seq<int>, n: seq<nat>) {
    && |n| == |lv| + 1 && n[0] == 0
    && forall k, l {:trigger n[k], n[l]} :: 0 <= k < l <= |lv| && l == k + 1 ==>
         n[l] == if Visible(lv[k]) then n[k] + 1 else n[k]
  }

  /** `h` is what is left of `g` without the removed characters. */
  ghost predicate Kept<T>(g: seq<T>, lv: seq<int>, n: seq<nat>, h: seq<T>) {
    && Ranks(lv, n) && |g| == |lv| && |h| == n[|lv|]
    && forall k {:trigger g[k]} {:trigger lv[k]} :: 0 <= k < |g| && Visible(lv[k]) ==> n[k] < |h| && h[n[k]] == g[k]
  }

  lemma {:induction false} DropRemoved<T>(g: seq<T>, lv: seq<int>) returns (n: seq<nat>, h: seq<T>)
    requires |g| == |lv|
    ensures Kept(g, lv, n, h)
    decreases |g|
  {
    if g == [] {
      n, h := [0], [];
    } else {
      var m := |g| - 1;
      n, h := DropRemoved(g[..m], lv[..m]);
      n, h := DropNext(g, lv, n, h);
    }
  }

  lemma DropNext<T>(g: seq<T>, lv: seq<int>, n: seq<nat>, h: seq<T>) returns (n': seq<nat>, h': seq<T>)
    requires |g| == |lv| && g != [] && Kept(g[..|g| - 1], lv[..|g| - 1], n, h)
    ensures Kept(g, lv, n', h')
  {
    var m := |g| - 1;
    n' := n + [if Visible(lv[m]) then n[m] + 1 else n[m]];
    h' := if Visible(lv[m]) then h + [g[m]] else h;
    assert |n| == m + 1 && n[m] == |h| && n'[m + 1] == |h'| && n'[0] == n[0];
    forall k {:trigger g[k]} {:trigger lv[k]} | 0 <= k < |g| && Visible(lv[k])
      ensures n'[k] < |h'| && h'[n'[k]] == g[k]
    {
      assert k < m ==> g[..m][k] == g[k] && lv[..m][k] == lv[k];
    }
    forall k, l {:trigger n'[k], n'[l]} | 0 <= k < l <= |lv| && l == k + 1
      ensures n'[l] == if Visible(lv[k]) then n'[k] + 1 else n'[k]
    {
      assert k < m ==> lv[..m][k] == lv[k] && n'[l] == n[l];
    }
  }

  lemma {:induction false} RanksAscend(lv: seq<int>, n: seq<nat>, a: nat, b: nat)
    requires Ranks(lv, n) && a <= b <= |lv|
    ensures n[a] <= n[b] && (a < b && Visible(lv[a]) ==> n[a] < n[b])
    decreases b
  {
    if a < b {
      RanksAscend(lv, n, a, b - 1);
    }
  }

  lemma {:induction false} RanksFlat(lv: seq<int>, n: seq<nat>, a: nat, b: nat)
    requires Ranks(lv, n) && a <= b <= |lv| && forall k {:trigger lv[k]} :: a <= k < b ==> !Visible(lv[k])
    ensures n[a] == n[b]
    decreases b
  {
    if a < b {
      RanksFlat(lv, n, a, b - 1);
    }
  }

  /** The visible position of a given rank. */
  lemma {:induction false} RankTaken(lv: seq<int>, n: seq<nat>, m: nat, q: nat) returns (k: nat)
    requires Ranks(lv, n) && m <= |lv| && q < n[m]
    ensures k < m && Visible(lv[k]) && n[k] == q
    decreases m
  {
    assert n[m] == if Visible(lv[m - 1]) then n[m - 1] + 1 else n[m - 1];
    if q < n[m - 1] {
      k := RankTaken(lv, n, m - 1, q);
    } else {
      k := m - 1;
    }
  }

  /** Visible positions are in the order of their ranks. */
  lemma RankOrder(lv: seq<int>, n: seq<nat>, a: nat, b: nat)
    requires Ranks(lv, n) && a < |lv| && b < |lv| && Visible(lv[a]) && Visible(lv[b])
    ensures (a < b <==> n[a] < n[b]) && (a == b <==> n[a] == n[b])
  {
    RanksAscend(lv, n, Min(a, b), Max(a, b));
  }

  lemma RankNext(lv: seq<int>, n: seq<nat>, k: nat)
    requires Ranks(lv, n) && k < |lv|
    ensures n[k + 1] == if Visible(lv[k]) then n[k] + 1 else n[k]
    ensures n[k + 1] <= n[|lv|]
  {
    RanksAscend(lv, n, k + 1, |lv|);
  }

  /** Nothing removed is left. */
  ghost predicate Reduced(g: seq<BidiClass>, lv: seq<int>, n: seq<nat>, h: seq<BidiClass>, w: seq<int>) {
    Consistent(g, lv) && Kept(g, lv, n, h) && Kept(lv, lv, n, w)
  }

  lemma ReducedAt(g: seq<BidiClass>, lv: seq<int>, n: seq<nat>, h: seq<BidiClass>, w: seq<int>, q: nat) returns (k: nat)
    requires Reduced(g, lv, n, h, w) && q < |h|
    ensures |w| == |h| && k < |g| && n[k] == q && Visible(lv[k]) && h[q] == g[k] && w[q] == lv[k]
    ensures Visible(w[q]) && !h[q].IsRemovedByX9()
  {
    k := RankTaken(lv, n, |lv|, q);
    assert g[k] == h[n[k]] && lv[k] == w[n[k]];
  }

  lemma ReducedConsistent(g: seq<BidiClass>, lv: seq<int>, n: seq<nat>, h: seq<BidiClass>, w: seq<int>)
    requires Reduced(g, lv, n, h, w)
    ensures Consistent(h, w)
  {
    forall q {:trigger h[q]} {:trigger w[q]} | 0 <= q < |h| ensures Visible(w[q]) && !h[q].IsRemovedByX9() {
      var k := ReducedAt(g, lv, n, h, w, q);
    }
  }

  /** The character at `k`, in the chain and in what is left of it. */
  lemma ReducedStep(g: seq<BidiClass>, lv: seq<int>, n: seq<nat>, h: seq<BidiClass>, w: seq<int>, k: nat)
    requires Reduced(g, lv, n, h, w) && k < |g|
    ensures n[k] <= n[k + 1] <= |h| == |w|
    ensures if Visible(lv[k]) then n[k + 1] == n[k] + 1 && h[n[k]] == g[k] && w[n[k]] == lv[k]
            else n[k + 1] == n[k] && g[k].IsRemovedByX9()
  {
    RankNext(lv, n, k);
    assert lv[k] == lv[k] && g[k] == g[k];
  }

  // ---------------------------------------------------------------- searches back

  lemma {:induction false} MarkBaseSkips(g: seq<BidiClass>, lv: seq<int>, n: seq<nat>, h: seq<BidiClass>, w: seq<int>,
                                         sos: BidiClass, k: nat)
    requires Reduced(g, lv, n, h, w) && k <= |g|
    ensures n[k] <= |h| == |w| && MarkBase(g, lv, sos, k) == MarkBase(h, w, sos, n[k])
    decreases k
  {
    if 0 < k {
      MarkBaseSkips(g, lv, n, h, w, sos, k - 1);
      ReducedStep(g, lv, n, h, w, k - 1);
    }
  }

  lemma {:induction false} LastStrongSkips(g: seq<BidiClass>, lv: seq<int>, n: seq<nat>, h: seq<BidiClass>,
                                           w: seq<int>, al: bool, sos: BidiClass, k: nat)
    requires Reduced(g, lv, n, h, w) && k <= |g|
    ensures n[k] <= |h| && LastStrong(g, al, sos, k) == LastStrong(h, al, sos, n[k])
    decreases k
  {
    if 0 < k {
      LastStrongSkips(g, lv, n, h, w, al, sos, k - 1);
      ReducedStep(g, lv, n, h, w, k - 1);
    }
  }

  lemma PriorOver(g: seq<BidiClass>, lv: seq<int>, h: seq<BidiClass>, w: seq<int>, sos: BidiClass, k: nat, m: nat)
    requires Consistent(g, lv) && Consistent(h, w) && k < |g| && m < |h| && h[m] == g[k] && w[m] == lv[k]
    requires PriorDirection(g, lv, sos, k) == PriorDirection(h, w, sos, m)
    ensures PriorDirection(g, lv, sos, k + 1) == PriorDirection(h, w, sos, m + 1)
  {
    PriorStep(g, lv, sos, k, g[k], lv[k]);
    PriorStep(h, w, sos, m, g[k], lv[k]);
  }

  lemma PriorHidden(g: seq<BidiClass>, lv: seq<int>, sos: BidiClass, k: nat)
    requires Consistent(g, lv) && k < |g| && !Visible(lv[k])
    ensures PriorDirection(g, lv, sos, k + 1) == PriorDirection(g, lv, sos, k)
  {
    PriorStep(g, lv, sos, k, g[k], lv[k]);
  }

  lemma {:induction false} PriorSkips(g: seq<BidiClass>, lv: seq<int>, n: seq<nat>, h: seq<BidiClass>, w: seq<int>,
                                      sos: BidiClass, k: nat)
    requires Reduced(g, lv, n, h, w) && Consistent(h, w) && k <= |g|
    ensures n[k] <= |h| && PriorDirection(g, lv, sos, k) == PriorDirection(h, w, sos, n[k])
    decreases k
  {
    if 0 < k {
      PriorSkips(g, lv, n, h, w, sos, k - 1);
      ReducedStep(g, lv, n, h, w, k - 1);
      if Visible(lv[k - 1]) {
        PriorOver(g, lv, h, w, sos, k - 1, n[k - 1]);
      } else {
        PriorHidden(g, lv, sos, k - 1);
      }
    }
  }

  lemma FollowingOver(g: seq<BidiClass>, lv: seq<int>, h: seq<BidiClass>, w: seq<int>, eos: BidiClass, k: nat, m: nat)
    requires Consistent(g, lv) && Consistent(h, w) && k < |g| && m < |h| && h[m] == g[k] && w[m] == lv[k]
    requires FollowingDirection(g, lv, eos, k + 1) == FollowingDirection(h, w, eos, m + 1)
    ensures FollowingDirection(g, lv, eos, k) == FollowingDirection(h, w, eos, m)
  {
    FollowingStep(g, lv, eos, k, g[k], lv[k]);
    FollowingStep(h, w, eos, m, g[k], lv[k]);
  }

  lemma FollowingHidden(g: seq<BidiClass>, lv: seq<int>, eos: BidiClass, k: nat)
    requires Consistent(g, lv) && k < |g| && !Visible(lv[k])
    ensures FollowingDirection(g, lv, eos, k) == FollowingDirection(g, lv, eos, k + 1)
  {
    FollowingStep(g, lv, eos, k, g[k], lv[k]);
  }

  lemma {:induction false} FollowingSkips(g: seq<BidiClass>, lv: seq<int>, n: seq<nat>, h: seq<BidiClass>,
                                          w: seq<int>, eos: BidiClass, k: nat)
    requires Reduced(g, lv, n, h, w) && Consistent(h, w) && k <= |g|
    ensures n[k] <= |h| && FollowingDirection(g, lv, eos, k) == FollowingDirection(h, w, eos, n[k])
    decreases |g| - k
  {
    if k < |g| {
      FollowingSkips(g, lv, n, h, w, eos, k + 1);
      ReducedStep(g, lv, n, h, w, k);
      if Visible(lv[k]) {
        FollowingOver(g, lv, h, w, eos, k, n[k]);
      } else {
        FollowingHidden(g, lv, eos, k);
      }
    }
  }

  // ---------------------------------------------------------------- neighbours

  lemma PrevSkips(g: seq<BidiClass>, lv: seq<int>, n: seq<nat>, h: seq<BidiClass>, w: seq<int>, k: nat)
    requires Reduced(g, lv, n, h, w) && k < |g| && Visible(lv[k])
    ensures n[k] <= |w| && var p := PrevVisible(lv, k); PrevVisible(w, n[k]) == if p < 0 then -1 else n[p]
  {
    ReducedConsistent(g, lv, n, h, w);
    ReducedStep(g, lv, n, h, w, k);
    var p := PrevVisible(lv, k);
    RanksFlat(lv, n, p + 1, k);
    if 0 <= p {
      RankNext(lv, n, p);
    }
    assert 0 < n[k] ==> Visible(w[n[k] - 1]);
  }

  lemma NextSkips(g: seq<BidiClass>, lv: seq<int>, n: seq<nat>, h: seq<BidiClass>, w: seq<int>, k: nat)
    requires Reduced(g, lv, n, h, w) && k < |g| && Visible(lv[k])
    ensures n[k] < |w| && NextVisible(w, n[k] + 1) == n[NextVisible(lv, k + 1)]
  {
    ReducedConsistent(g, lv, n, h, w);
    ReducedStep(g, lv, n, h, w, k);
    RanksFlat(lv, n, k + 1, NextVisible(lv, k + 1));
    assert n[k] + 1 < |w| ==> Visible(w[n[k] + 1]);
  }

  lemma BetweenSkips(g: seq<BidiClass>, lv: seq<int>, n: seq<nat>, h: seq<BidiClass>, w: seq<int>, k: nat, c: BidiClass)
    requires Reduced(g, lv, n, h, w) && k < |g| && Visible(lv[k])
    ensures n[k] < |h| == |w| && Between(g, lv, k, c) == Between(h, w, n[k], c)
  {
    PrevSkips(g, lv, n, h, w, k);
    NextSkips(g, lv, n, h, w, k);
    var p, q := PrevVisible(lv, k), NextVisible(lv, k + 1);
    if 0 <= p {
      ReducedStep(g, lv, n, h, w, p);
    }
    if q < |g| {
      ReducedStep(g, lv, n, h, w, q);
    }
  }

  // ---------------------------------------------------------------- blocks of terminators

  lemma JoinedSkips(g: seq<BidiClass>, lv: seq<int>, n: seq<nat>, h: seq<BidiClass>, w: seq<int>, a: nat, b: nat)
    requires Reduced(g, lv, n, h, w) && a < |g| && b < |g| && Visible(lv[a]) && Visible(lv[b])
    ensures |h| == |w| && (Joined(g, lv, a, b) <==> Joined(h, w, n[a], n[b]))
  {
    RankOrder(lv, n, a, b);
    if Joined(g, lv, a, b) {
      forall q {:trigger h[q]} | 0 <= q < |h| && Min(n[a], n[b]) < q < Max(n[a], n[b])
        ensures h[q].EuropeanTerminator?
      {
        var k := ReducedAt(g, lv, n, h, w, q);
        RankOrder(lv, n, a, k);
        RankOrder(lv, n, b, k);
      }
    }
    if Joined(h, w, n[a], n[b]) {
      forall k {:trigger g[k]} | 0 <= k < |g| && Min(a, b) < k < Max(a, b) && Visible(lv[k])
        ensures g[k].EuropeanTerminator?
      {
        ReducedStep(g, lv, n, h, w, k);
        RankOrder(lv, n, a, k);
        RankOrder(lv, n, b, k);
        assert Visible(w[n[k]]);
      }
    }
  }

  lemma TouchedSkips(g: seq<BidiClass>, lv: seq<int>, n: seq<nat>, h: seq<BidiClass>, w: seq<int>, k: nat)
    requires Reduced(g, lv, n, h, w) && k < |g| && Visible(lv[k])
    ensures |h| == |w| && (Touched(g, lv, k, |g|) <==> Touched(h, w, n[k], |h|))
  {
    if Touched(g, lv, k, |g|) {
      var q :| 0 <= q < |g| && g[q].EuropeanNumber? && Joined(g, lv, k, q);
      ReducedStep(g, lv, n, h, w, q);
      JoinedSkips(g, lv, n, h, w, k, q);
      assert h[n[q]].EuropeanNumber?;
    }
    if Touched(h, w, n[k], |h|) {
      var r :| 0 <= r < |h| && h[r].EuropeanNumber? && Joined(h, w, n[k], r);
      var q := ReducedAt(g, lv, n, h, w, r);
      JoinedSkips(g, lv, n, h, w, k, q);
      assert g[q].EuropeanNumber?;
    }
  }

  // ---------------------------------------------------------------- the rules

  /** A rule gives a visible character the class that it gives it in the chain without removed characters. */
  lemma RuleSkips(name: RuleName, g: seq<BidiClass>, lv: seq<int>, n: seq<nat>, h: seq<BidiClass>, w: seq<int>,
                  sq: RunSequence, k: nat)
    requires Reduced(g, lv, n, h, w) && k < |g| && Visible(lv[k])
    ensures n[k] < |h| == |w| && RuleAt(name, g, lv, sq, k) == RuleAt(name, h, w, sq, n[k])
  {
    ReducedStep(g, lv, n, h, w, k);
    match name
    case W1 => MarkBaseSkips(g, lv, n, h, w, sq.sos, k);
    case W2 => LastStrongSkips(g, lv, n, h, w, true, sq.sos, k);
    case W4 =>
      BetweenSkips(g, lv, n, h, w, k, EuropeanNumber);
      BetweenSkips(g, lv, n, h, w, k, ArabicNumber);
    case W5 => TouchedSkips(g, lv, n, h, w, k);
    case W7 => LastStrongSkips(g, lv, n, h, w, false, sq.sos, k);
    case N1 =>
      ReducedConsistent(g, lv, n, h, w);
      PriorSkips(g, lv, n, h, w, sq.sos, k);
      FollowingSkips(g, lv, n, h, w, sq.eos, k + 1);
    case _ =>
  }

  /** The same for the whole chain. */
  lemma RuleReduces(name: RuleName, g: seq<BidiClass>, lv: seq<int>, n: seq<nat>, h: seq<BidiClass>, w: seq<int>,
                    sq: RunSequence)
    requires Reduced(g, lv, n, h, w)
    ensures |h| == |w| && Kept(ApplyRule(name, g, lv, sq), lv, n, ApplyRule(name, h, w, sq))
  {
    var r, r' := ApplyRule(name, g, lv, sq), ApplyRule(name, h, w, sq);
    ApplyRuleIsResult(name, g, lv, sq);
    ApplyRuleIsResult(name, h, w, sq);
    forall k {:trigger r[k]} {:trigger lv[k]} | 0 <= k < |r| && Visible(lv[k]) ensures n[k] < |r'| && r'[n[k]] == r[k] {
      RuleSkips(name, g, lv, n, h, w, sq, k);
      assert r[k] == RuleAt(name, g, lv, sq, k) && r'[n[k]] == RuleAt(name, h, w, sq, n[k]);
    }
  }
}
