/** Section 5.2 of UAX #9 for N0: without the removed characters the same brackets pair and take the same
    direction. */
module RemovedBrackets {
  import opened Options
  import opened BidiTypes
  import opened LevelRuns
  import opened Neutrals
  import opened Brackets
  import opened BracketRules
  import opened RemovedCharacters

  // ---------------------------------------------------------------- pairs

  predicate PairVisible(lv: seq<int>, p: Pair) {
    p.openingPos < p.closingPos < |lv| && Visible(lv[p.openingPos]) && Visible(lv[p.closingPos])
  }

  /** `p'` is the pair in what is left of the chain. */
  ghost predicate PairMoved(n: seq<nat>, p: Pair, p': Pair) {
    && p.openingPos < |n| && p.closingPos < |n|
    && p'.openingPos == n[p.openingPos] && p'.closingPos == n[p.closingPos]
  }

  ghost predicate PairsMoved(n: seq<nat>, ps: seq<Pair>, ps': seq<Pair>) {
    |ps| == |ps'| && forall i {:trigger ps[i]} {:trigger ps'[i]} :: 0 <= i < |ps| ==> PairMoved(n, ps[i], ps'[i])
  }

  ghost predicate OpenMoved(n: seq<nat>, o: OpenBracket, o': OpenBracket) {
    o.position < |n| && o'.position == n[o.position] && o'.closing == o.closing
  }

  ghost predicate OpensMoved(n: seq<nat>, os: seq<OpenBracket>, os': seq<OpenBracket>) {
    |os| == |os'| && forall i {:trigger os[i]} {:trigger os'[i]} :: 0 <= i < |os| ==> OpenMoved(n, os[i], os'[i])
  }

  ghost predicate StateMoved(n: seq<nat>, s: BracketState, s': BracketState) {
    OpensMoved(n, s.open, s'.open) && PairsMoved(n, s.pairs, s'.pairs)
  }

  lemma FindOpenMoved(n: seq<nat>, os: seq<OpenBracket>, os': seq<OpenBracket>, c: char)
    requires OpensMoved(n, os, os')
    ensures FindOpen(os, c) == FindOpen(os', c)
  {
    var d, d' := FindOpen(os, c), FindOpen(os', c);
    assert 0 <= d ==> OpenMoved(n, os[d], os'[d]);
    assert 0 <= d' ==> OpenMoved(n, os[d'], os'[d']);
  }

  lemma CloseMoved(n: seq<nat>, s: BracketState, s': BracketState, c: char, k: nat)
    requires StateMoved(n, s, s') && k < |n|
    ensures StateMoved(n, CloseBracket(s, c, k), CloseBracket(s', c, n[k]))
  {
    FindOpenMoved(n, s.open, s'.open, c);
    var d := FindOpen(s.open, c);
    if 0 <= d {
      assert OpenMoved(n, s.open[d], s'.open[d]);
    }
  }

  lemma BracketStepMoved(n: seq<nat>, s: BracketState, s': BracketState, b: Option<Bracket>, c: char, k: nat)
    requires StateMoved(n, s, s') && k < |n|
    ensures StateMoved(n, BracketStep(s, b, c, k), BracketStep(s', b, c, n[k]))
  {
    if b.Some? && b.value.kind == Close {
      CloseMoved(n, s, s', c, k);
    }
  }

  lemma {:induction false} Bd16Skips(chars: seq<char>, g: seq<BidiClass>, lv: seq<int>, n: seq<nat>,
                                     chars': seq<char>, h: seq<BidiClass>, w: seq<int>, table: BracketTable, k: nat)
    requires Reduced(g, lv, n, h, w) && Kept(chars, lv, n, chars') && k <= |g|
    ensures n[k] <= |h| == |chars'| && StateMoved(n, Bd16(chars, g, table, k), Bd16(chars', h, table, n[k]))
    decreases k
  {
    if 0 < k {
      Bd16Skips(chars, g, lv, n, chars', h, w, table, k - 1);
      ReducedStep(g, lv, n, h, w, k - 1);
      if Visible(lv[k - 1]) {
        assert chars'[n[k - 1]] == chars[k - 1];
        BracketStepMoved(n, Bd16(chars, g, table, k - 1), Bd16(chars', h, table, n[k - 1]),
                         BracketAt(chars, g, table, k - 1), chars[k - 1], k - 1);
      }
    }
  }

  // ---------------------------------------------------------------- their order

  lemma ConsMoved(n: seq<nat>, p: Pair, p': Pair, ps: seq<Pair>, ps': seq<Pair>)
    requires PairMoved(n, p, p') && PairsMoved(n, ps, ps')
    ensures PairsMoved(n, [p] + ps, [p'] + ps')
  {
  }

  lemma {:induction false} InsertMoved(lv: seq<int>, n: seq<nat>, p: Pair, p': Pair, ps: seq<Pair>, ps': seq<Pair>)
    requires Ranks(lv, n) && PairsVisible(lv, ps) && PairsMoved(n, ps, ps')
    requires PairVisible(lv, p) && PairMoved(n, p, p')
    ensures PairsMoved(n, Insert(p, ps), Insert(p', ps'))
    decreases |ps|
  {
    if ps == [] {
      ConsMoved(n, p, p', [], []);
    } else {
      assert PairMoved(n, ps[0], ps'[0]);
      RankOrder(lv, n, p.openingPos, ps[0].openingPos);
      if p.openingPos <= ps[0].openingPos {
        ConsMoved(n, p, p', ps, ps');
      } else {
        TailsMoved(lv, n, ps, ps');
        InsertMoved(lv, n, p, p', ps[1..], ps'[1..]);
        ConsMoved(n, ps[0], ps'[0], Insert(p, ps[1..]), Insert(p', ps'[1..]));
      }
    }
  }

  lemma TailsMoved(lv: seq<int>, n: seq<nat>, ps: seq<Pair>, ps': seq<Pair>)
    requires PairsVisible(lv, ps) && PairsMoved(n, ps, ps') && ps != []
    ensures PairsVisible(lv, ps[1..]) && PairsMoved(n, ps[1..], ps'[1..])
  {
    forall i {:trigger ps[1..][i]} {:trigger ps'[1..][i]} | 0 <= i < |ps[1..]|
      ensures PairMoved(n, ps[1..][i], ps'[1..][i])
    {
      assert PairMoved(n, ps[i + 1], ps'[i + 1]);
    }
  }

  lemma {:induction false} SortMoved(lv: seq<int>, n: seq<nat>, ps: seq<Pair>, ps': seq<Pair>)
    requires Ranks(lv, n) && PairsVisible(lv, ps) && PairsMoved(n, ps, ps')
    ensures PairsMoved(n, SortPairs(ps), SortPairs(ps'))
    decreases |ps|
  {
    if ps != [] {
      TailsMoved(lv, n, ps, ps');
      SortMoved(lv, n, ps[1..], ps'[1..]);
      SortedVisible(lv, ps[1..]);
      assert PairMoved(n, ps[0], ps'[0]);
      InsertMoved(lv, n, ps[0], ps'[0], SortPairs(ps[1..]), SortPairs(ps'[1..]));
    }
  }

  lemma PairsOfSkips(chars: seq<char>, g: seq<BidiClass>, lv: seq<int>, n: seq<nat>, chars': seq<char>,
                     h: seq<BidiClass>, w: seq<int>, table: BracketTable)
    requires Reduced(g, lv, n, h, w) && Kept(chars, lv, n, chars')
    ensures |chars'| == |h| && PairsMoved(n, PairsOf(chars, g, table), PairsOf(chars', h, table))
  {
    Bd16Skips(chars, g, lv, n, chars', h, w, table, |g|);
    Bd16Visible(chars, g, lv, table, |g|);
    SortMoved(lv, n, Bd16(chars, g, table, |g|).pairs, Bd16(chars', h, table, |h|).pairs);
  }

  // ---------------------------------------------------------------- their directions

  lemma StrongInsideSkips(g: seq<BidiClass>, lv: seq<int>, n: seq<nat>, h: seq<BidiClass>, w: seq<int>,
                          p: Pair, p': Pair, d: Direction)
    requires Reduced(g, lv, n, h, w) && PairVisible(lv, p) && PairMoved(n, p, p') && p'.closingPos < |h|
    ensures StrongInside(g, p, d) <==> StrongInside(h, p', d)
  {
    if StrongInside(g, p, d) {
      var k :| p.openingPos < k < p.closingPos && StrongDirection(g[k]) == Some(d);
      InnerRank(g, lv, n, h, w, p, k);
      assert StrongDirection(h[n[k]]) == Some(d);
    }
    if StrongInside(h, p', d) {
      var q :| p'.openingPos < q < p'.closingPos && StrongDirection(h[q]) == Some(d);
      var k := ReducedAt(g, lv, n, h, w, q);
      InnerRank(g, lv, n, h, w, p, k);
      assert StrongDirection(g[k]) == Some(d);
    }
  }

  lemma InnerRank(g: seq<BidiClass>, lv: seq<int>, n: seq<nat>, h: seq<BidiClass>, w: seq<int>, p: Pair, k: nat)
    requires Reduced(g, lv, n, h, w) && PairVisible(lv, p) && k < |g| && !g[k].IsRemovedByX9()
    ensures n[k] < |h| && h[n[k]] == g[k]
    ensures p.openingPos < k < p.closingPos <==> n[p.openingPos] < n[k] < n[p.closingPos]
  {
    ReducedStep(g, lv, n, h, w, k);
    RankOrder(lv, n, p.openingPos, k);
    RankOrder(lv, n, k, p.closingPos);
  }

  lemma PairDirectionSkips(g: seq<BidiClass>, lv: seq<int>, n: seq<nat>, h: seq<BidiClass>, w: seq<int>,
                           sos: BidiClass, embedding: Direction, p: Pair, p': Pair)
    requires Reduced(g, lv, n, h, w) && PairVisible(lv, p) && PairMoved(n, p, p')
    requires p.openingPos < p.closingPos < |g| && p'.openingPos < p'.closingPos < |h| == |w|
    ensures PairDirection(g, lv, sos, embedding, p) == PairDirection(h, w, sos, embedding, p')
  {
    StrongInsideSkips(g, lv, n, h, w, p, p', embedding);
    StrongInsideSkips(g, lv, n, h, w, p, p', embedding.Opposite());
    ReducedConsistent(g, lv, n, h, w);
    PriorSkips(g, lv, n, h, w, sos, p.openingPos);
  }

  // ---------------------------------------------------------------- their marks

  lemma MarkSkips(orig: seq<BidiClass>, lv: seq<int>, n: seq<nat>, orig': seq<BidiClass>, w: seq<int>, a: nat, k: nat)
    requires Reduced(orig, lv, n, orig', w) && a < |lv| && k < |lv| && Visible(lv[a]) && Visible(lv[k])
    ensures n[k] < |orig'| == |w| && (MarkOf(orig, lv, a, k) <==> MarkOf(orig', w, n[a], n[k]))
  {
    ReducedStep(orig, lv, n, orig', w, k);
    RankOrder(lv, n, a, k);
    if MarkOf(orig, lv, a, k) {
      forall q {:trigger orig'[q]} | n[a] < q < n[k] ensures orig'[q].NonspacingMark? {
        var j := ReducedAt(orig, lv, n, orig', w, q);
        RankOrder(lv, n, a, j);
        RankOrder(lv, n, j, k);
      }
    }
    if MarkOf(orig', w, n[a], n[k]) {
      forall j {:trigger orig[j]} | a < j < k && Visible(lv[j]) ensures orig[j].NonspacingMark? {
        ReducedStep(orig, lv, n, orig', w, j);
        RankOrder(lv, n, a, j);
        RankOrder(lv, n, j, k);
        assert Visible(w[n[j]]);
      }
    }
  }

  lemma InPairSkips(orig: seq<BidiClass>, lv: seq<int>, n: seq<nat>, orig': seq<BidiClass>, w: seq<int>,
                    p: Pair, p': Pair, k: nat)
    requires Reduced(orig, lv, n, orig', w) && PairVisible(lv, p) && PairMoved(n, p, p')
    requires k < |lv| && Visible(lv[k])
    ensures n[k] < |orig'| == |w| && (InPair(orig, lv, p, k) <==> InPair(orig', w, p', n[k]))
  {
    MarkSkips(orig, lv, n, orig', w, p.openingPos, k);
    MarkSkips(orig, lv, n, orig', w, p.closingPos, k);
    RankOrder(lv, n, k, p.openingPos);
    RankOrder(lv, n, k, p.closingPos);
  }

  // ---------------------------------------------------------------- the rule

  lemma ResolvePairSkips(g: seq<BidiClass>, orig: seq<BidiClass>, lv: seq<int>, n: seq<nat>, h: seq<BidiClass>,
                         orig': seq<BidiClass>, w: seq<int>, sos: BidiClass, embedding: Direction, p: Pair, p': Pair)
    requires Reduced(g, lv, n, h, w) && Reduced(orig, lv, n, orig', w)
    requires PairVisible(lv, p) && PairMoved(n, p, p')
    requires p.openingPos < p.closingPos < |g| && p'.openingPos < p'.closingPos < |h| == |w|
    ensures Reduced(ResolvePair(g, orig, lv, sos, embedding, p), lv, n,
                    ResolvePair(h, orig', w, sos, embedding, p'), w)
  {
    var r, r' := ResolvePair(g, orig, lv, sos, embedding, p), ResolvePair(h, orig', w, sos, embedding, p');
    PairDirectionSkips(g, lv, n, h, w, sos, embedding, p, p');
    PairOnlyDirections(g, orig, lv, sos, embedding, p);
    OnlyDirectionsKeep(g, lv, r, 0);
    forall k {:trigger r[k]} {:trigger lv[k]} | 0 <= k < |r| && Visible(lv[k]) ensures n[k] < |r'| && r'[n[k]] == r[k] {
      ReducedStep(g, lv, n, h, w, k);
      InPairSkips(orig, lv, n, orig', w, p, p', k);
    }
  }

  lemma {:induction false} ResolvePairsSkip(g: seq<BidiClass>, orig: seq<BidiClass>, lv: seq<int>, n: seq<nat>,
                                            h: seq<BidiClass>, orig': seq<BidiClass>, w: seq<int>, sos: BidiClass,
                                            embedding: Direction, ps: seq<Pair>, ps': seq<Pair>)
    requires Reduced(g, lv, n, h, w) && Reduced(orig, lv, n, orig', w) && |orig'| == |h| == |w|
    requires PairsVisible(lv, ps) && PairsMoved(n, ps, ps') && PairsFit(ps', |h|)
    ensures Reduced(ResolvePairs(g, orig, lv, sos, embedding, ps), lv, n,
                    ResolvePairs(h, orig', w, sos, embedding, ps'), w)
    decreases |ps|
  {
    if ps != [] {
      var m := |ps| - 1;
      ResolvePairsSkip(g, orig, lv, n, h, orig', w, sos, embedding, ps[..m], ps'[..m]);
      assert PairMoved(n, ps[m], ps'[m]);
      ResolvePairSkips(ResolvePairs(g, orig, lv, sos, embedding, ps[..m]), orig, lv, n,
                       ResolvePairs(h, orig', w, sos, embedding, ps'[..m]), orig', w, sos, embedding, ps[m], ps'[m]);
    }
  }

  /** N0 gives a visible character the class that it gives it in the chain without removed characters. */
  lemma BracketsSkip(g: seq<BidiClass>, chars: seq<char>, orig: seq<BidiClass>, lv: seq<int>, n: seq<nat>,
                     h: seq<BidiClass>, chars': seq<char>, orig': seq<BidiClass>, w: seq<int>, sq: RunSequence,
                     table: BracketTable)
    requires Reduced(g, lv, n, h, w) && Reduced(orig, lv, n, orig', w) && Kept(chars, lv, n, chars')
    ensures |h| == |chars'| == |orig'| == |w|
    ensures Reduced(ResolveBrackets(g, chars, orig, lv, sq, table), lv, n,
                    ResolveBrackets(h, chars', orig', w, sq, table), w)
  {
    PairsOfSkips(chars, g, lv, n, chars', h, w, table);
    PairsOfVisible(chars, g, lv, table);
    ResolvePairsSkip(g, orig, lv, n, h, orig', w, sq.sos, DirectionOf(sq.level), PairsOf(chars, g, table),
                     PairsOf(chars', h, table));
  }
}
