/** A text and the same text with another content of one isolate: BD13 makes the same sequences of the
    characters outside. */
module ReplacedContent {
  import opened BidiTypes
  import opened ParagraphLevels
  import opened OpenIsolates
  import opened IsolatePairs
  import opened IsolatingSequences

  // ---------------------------------------------------------------- positions

  /** Not between the initiator at `i` and its PDI at `j`. */
  predicate Outside(i: nat, j: nat, p: int) {
    p <= i || j <= p
  }

  /** The place of the character when the PDI stands at `j'`. */
  function Shift(i: nat, j: nat, j': nat, p: nat): nat
    requires Outside(i, j, p)
  {
    if p <= i then p else j' + (p - j)
  }

  ghost predicate AgreeOutside<T>(a: seq<T>, i: nat, j: nat, b: seq<T>, j': nat) {
    && i < j < |a| && i < j' < |b| && |a| - j == |b| - j'
    && forall p: nat {:trigger a[p]} :: p < |a| && Outside(i, j, p) ==> b[Shift(i, j, j', p)] == a[p]
  }

  lemma AgreeBack<T>(a: seq<T>, i: nat, j: nat, b: seq<T>, j': nat)
    requires AgreeOutside(a, i, j, b, j')
    ensures AgreeOutside(b, i, j', a, j)
  {
    forall q: nat {:trigger b[q]} | q < |b| && Outside(i, j', q) ensures a[Shift(i, j', j, q)] == b[q] {
      var p := Shift(i, j', j, q);
      assert b[Shift(i, j, j', p)] == a[p];
    }
  }

  lemma AgreeCut<T>(a: seq<T>, i: nat, j: nat, b: seq<T>, j': nat, p: nat, q: nat)
    requires AgreeOutside(a, i, j, b, j') && p <= q <= |a|
    ensures q <= i + 1 ==> a[p..q] == b[p..q]
    ensures j <= p ==> j' + (q - j) <= |b| && a[p..q] == b[j' + (p - j)..j' + (q - j)]
  {
    if q <= i + 1 {
      forall k | 0 <= k < q - p ensures a[p..q][k] == b[p..q][k] {
        assert b[Shift(i, j, j', p + k)] == a[p + k];
      }
    }
    if j <= p {
      var c, d := a[p..q], b[j' + (p - j)..j' + (q - j)];
      forall k | 0 <= k < q - p ensures c[k] == d[k] {
        assert b[Shift(i, j, j', p + k)] == a[p + k];
      }
    }
  }

  lemma SlicesAgree<T>(a: seq<T>, i: nat, j: nat, b: seq<T>, j': nat)
    requires i < j < |a| && i < j' < |b| && a[..i + 1] == b[..i + 1] && a[j..] == b[j'..]
    ensures AgreeOutside(a, i, j, b, j')
  {
    assert |a[j..]| == |b[j'..]|;
    forall p: nat {:trigger a[p]} | p < |a| && Outside(i, j, p) ensures b[Shift(i, j, j', p)] == a[p] {
      if p <= i {
        assert a[..i + 1][p] == b[..i + 1][p];
      } else {
        assert a[j..][p - j] == b[j'..][p - j];
      }
    }
  }

  // ---------------------------------------------------------------- matching

  lemma OnlyMatch(text: seq<BidiClass>, i: nat, j: nat, k: nat)
    requires Matches(text, i, j) && Matches(text, i, k)
    ensures j == k
  {
    if j < k {
      NotClosed(text, i, k, j);
    } else if k < j {
      NotClosed(text, i, j, k);
    }
  }

  /** The PDI of an initiator inside an isolate is inside too. */
  lemma InnerMatch(text: seq<BidiClass>, i: nat, j: nat, a: nat, b: nat)
    requires Matches(text, i, j) && Matches(text, a, b) && i < a < j
    ensures b < j
  {
    InnerHasMatch(text, i, j, a);
    if j < b {
      NotYetClosed(text, a, b, j);
      NotYetClosed(text, i, j, a);
      NetStep(text, i + 1, a);
      NetAdds(text, i + 1, a + 1, j);
    }
  }

  lemma {:induction false} NetAfter(u: seq<BidiClass>, v: seq<BidiClass>, w: seq<BidiClass>)
    requires Net(u) == Net(v)
    ensures Net(u + w) == Net(v + w)
    decreases |w|
  {
    if w == [] {
      assert u + w == u && v + w == v;
    } else {
      var m := |w| - 1;
      NetAfter(u, v, w[..m]);
      assert (u + w)[..|u + w| - 1] == u + w[..m] && (v + w)[..|v + w| - 1] == v + w[..m];
    }
  }

  lemma IsolateNet(text: seq<BidiClass>, i: nat, j: nat)
    requires Matches(text, i, j)
    ensures Net(text[i..j + 1]) == 0
  {
    assert text[i..i] == [];
    NetStep(text, i, i);
    NetAdds(text, i, i + 1, j);
    NetStep(text, i, j);
  }

  /** An isolate in it does not count. */
  lemma NetSkips(text: seq<BidiClass>, a: nat, i: nat, j: nat)
    requires Matches(text, i, j) && a <= i && 0 <= Net(text[a..i])
    ensures Net(text[a..j + 1]) == Net(text[a..i])
  {
    IsolateNet(text, i, j);
    NetAdds(text, a, i, j + 1);
  }

  lemma SkipsAlike(text: seq<BidiClass>, i: nat, j: nat, text': seq<BidiClass>, j': nat, a: nat)
    requires Matches(text, i, j) && Matches(text', i, j') && a <= i && text[a..i] == text'[a..i]
    requires 0 <= Net(text[a..i])
    ensures Net(text[a..j + 1]) == Net(text'[a..j' + 1])
  {
    NetSkips(text, a, i, j);
    NetSkips(text', a, i, j');
  }

  lemma CutJoins<T>(s: seq<T>, a: nat, m: nat, b: nat)
    requires a <= m <= b <= |s|
    ensures s[a..b] == s[a..m] + s[m..b]
  {
  }

  lemma NetOnwards(text: seq<BidiClass>, a: nat, m: nat, b: nat, text': seq<BidiClass>, m': nat, b': nat)
    requires a <= m <= b <= |text| && a <= m' <= b' <= |text'|
    requires Net(text[a..m]) == Net(text'[a..m']) && text[m..b] == text'[m'..b']
    ensures Net(text[a..b]) == Net(text'[a..b'])
  {
    NetAfter(text[a..m], text'[a..m'], text[m..b]);
    CutJoins(text, a, m, b);
    CutJoins(text', a, m', b');
  }

  lemma AroundNet(text: seq<BidiClass>, i: nat, j: nat, text': seq<BidiClass>, j': nat, a: nat, b: nat, b': nat)
    requires Matches(text, i, j) && Matches(text', i, j') && Matches(text, a, b) && a < i && j < b && j' < b' < |text'|
    requires text[a + 1..i] == text'[a + 1..i] && text[j + 1..b] == text'[j' + 1..b']
    ensures Net(text'[a + 1..b']) == 0
  {
    NotYetClosed(text, a, b, i);
    SkipsAlike(text, i, j, text', j', a + 1);
    NetOnwards(text, a + 1, j + 1, b, text', j' + 1, b');
  }

  /** What matches around the isolate still does. */
  lemma AroundMoved(text: seq<BidiClass>, i: nat, j: nat, text': seq<BidiClass>, j': nat, a: nat, b: nat)
    requires Matches(text, i, j) && Matches(text', i, j') && AgreeOutside(text, i, j, text', j')
    requires Matches(text, a, b) && a < i && j < b
    ensures Matches(text', a, j' + (b - j))
  {
    assert text'[Shift(i, j, j', a)] == text[a] && text'[Shift(i, j, j', b)] == text[b];
    AgreeCut(text, i, j, text', j', a + 1, i);
    AgreeCut(text, i, j, text', j', j + 1, b);
    AroundNet(text, i, j, text', j', a, b, j' + (b - j));
  }

  /** BD9 pairs the same characters outside the isolate. */
  lemma MatchMoved(text: seq<BidiClass>, i: nat, j: nat, text': seq<BidiClass>, j': nat, a: nat, b: nat)
    requires Matches(text, i, j) && Matches(text', i, j') && AgreeOutside(text, i, j, text', j')
    requires Matches(text, a, b) && Outside(i, j, a)
    ensures Outside(i, j, b) && Matches(text', Shift(i, j, j', a), Shift(i, j, j', b))
  {
    if a == i {
      OnlyMatch(text, i, j, b);
    } else if a < i < b {
      InnerMatch(text, a, b, i, j);
      AroundMoved(text, i, j, text', j', a, b);
    } else {
      assert text'[Shift(i, j, j', a)] == text[a] && text'[Shift(i, j, j', b)] == text[b];
      AgreeCut(text, i, j, text', j', a + 1, b);
    }
  }

  // ---------------------------------------------------------------- sequences

  /** Two texts that differ in the content of one isolate, with their levels. */
  ghost predicate Replaced(text: seq<BidiClass>, x: seq<int>, i: nat, j: nat, text': seq<BidiClass>, x': seq<int>,
                           j': nat)
  {
    && Matches(text, i, j) && Matches(text', i, j')
    && AgreeOutside(text, i, j, text', j') && AgreeOutside(x, i, j, x', j')
    && IsolatesLift(text, x) && IsolatesLift(text', x')
  }

  lemma ReplacedBack(text: seq<BidiClass>, x: seq<int>, i: nat, j: nat, text': seq<BidiClass>, x': seq<int>, j': nat)
    requires Replaced(text, x, i, j, text', x', j')
    ensures Replaced(text', x', i, j', text, x, j)
  {
    AgreeBack(text, i, j, text', j');
    AgreeBack(x, i, j, x', j');
  }

  lemma EndsVisible(text: seq<BidiClass>, x: seq<int>, i: nat, j: nat)
    requires IsolatesLift(text, x) && Matches(text, i, j)
    ensures j < |x| && Visible(x[i]) && x[i] == x[j]
  {
    assert Visible(x[i]) <==> !text[i].IsRemovedByX9();
  }

  /** Nothing of one level stands on both sides of an end of the isolate, but its two ends. */
  lemma NeighboursStay(text: seq<BidiClass>, x: seq<int>, i: nat, j: nat, a: nat, b: nat)
    requires IsolatesLift(text, x) && Matches(text, i, j) && LevelNeighbours(x, a, b)
    ensures Outside(i, j, a) <==> Outside(i, j, b)
    ensures Outside(i, j, a) && a <= i < b ==> a == i && b == j
  {
    EndsVisible(text, x, i, j);
    if !Outside(i, j, a) {
      InsideHigher(text, x, i, j, a);
    }
    if !Outside(i, j, b) {
      InsideHigher(text, x, i, j, b);
    }
  }

  lemma NeighboursMoved(text: seq<BidiClass>, x: seq<int>, i: nat, j: nat, text': seq<BidiClass>, x': seq<int>,
                        j': nat, a: nat, b: nat)
    requires Replaced(text, x, i, j, text', x', j') && LevelNeighbours(x, a, b) && Outside(i, j, a)
    requires b <= i || j <= a
    ensures LevelNeighbours(x', Shift(i, j, j', a), Shift(i, j, j', b))
  {
    var a', b' := Shift(i, j, j', a), Shift(i, j, j', b);
    assert x'[a'] == x[a] && x'[b'] == x[b];
    forall k {:trigger x'[k]} | a' < k < b' ensures !Visible(x'[k]) {
      var m := if k <= i then k else k - j' + j;
      assert x'[Shift(i, j, j', m)] == x[m];
    }
  }

  /** What comes next after a character outside is outside, and still comes next. */
  lemma FollowsMoved(text: seq<BidiClass>, x: seq<int>, i: nat, j: nat, text': seq<BidiClass>, x': seq<int>,
                     j': nat, a: nat, b: nat)
    requires Replaced(text, x, i, j, text', x', j') && Follows(text, x, a, b) && Outside(i, j, a)
    ensures Outside(i, j, b) && Follows(text', x', Shift(i, j, j', a), Shift(i, j, j', b))
  {
    if LevelNeighbours(x, a, b) {
      NeighboursStay(text, x, i, j, a, b);
      if a == i {
        MatchFollows(text', x', i, j');
      } else {
        NeighboursMoved(text, x, i, j, text', x', j', a, b);
      }
    } else {
      MatchMoved(text, i, j, text', j', a, b);
      MatchFollows(text', x', Shift(i, j, j', a), Shift(i, j, j', b));
    }
  }

  lemma FollowsInside(text: seq<BidiClass>, x: seq<int>, i: nat, j: nat, a: nat, b: nat)
    requires IsolatesLift(text, x) && Matches(text, i, j) && Follows(text, x, a, b) && !Outside(i, j, a)
    ensures !Outside(i, j, b)
  {
    if LevelNeighbours(x, a, b) {
      NeighboursStay(text, x, i, j, a, b);
    } else {
      InnerMatch(text, i, j, a, b);
    }
  }

  lemma {:induction false} ReachesInside(text: seq<BidiClass>, x: seq<int>, i: nat, j: nat, a: nat, b: nat)
    requires IsolatesLift(text, x) && Matches(text, i, j) && Reaches(text, x, a, b) && !Outside(i, j, a)
    ensures !Outside(i, j, b)
    decreases b - a
  {
    if a != b {
      var c: nat :| a < c <= b && Follows(text, x, a, c) && Reaches(text, x, c, b);
      FollowsInside(text, x, i, j, a, c);
      ReachesInside(text, x, i, j, c, b);
    }
  }

  /** A sequence outside stays a sequence. */
  lemma {:induction false} ReachesMoved(text: seq<BidiClass>, x: seq<int>, i: nat, j: nat, text': seq<BidiClass>,
                                        x': seq<int>, j': nat, a: nat, b: nat)
    requires Replaced(text, x, i, j, text', x', j') && Reaches(text, x, a, b) && Outside(i, j, a)
    ensures Outside(i, j, b) && Reaches(text', x', Shift(i, j, j', a), Shift(i, j, j', b))
    decreases b - a
  {
    if a != b {
      var c: nat :| a < c <= b && Follows(text, x, a, c) && Reaches(text, x, c, b);
      FollowsMoved(text, x, i, j, text', x', j', a, c);
      ReachesMoved(text, x, i, j, text', x', j', c, b);
    }
  }

  /** Characters of one sequence, one of them outside, are in one sequence of the other text. */
  lemma SequenceMoved(text: seq<BidiClass>, x: seq<int>, i: nat, j: nat, text': seq<BidiClass>, x': seq<int>,
                      j': nat, a: nat, b: nat)
    requires Replaced(text, x, i, j, text', x', j') && SameSequence(text, x, a, b) && Outside(i, j, a)
    ensures Outside(i, j, b) && SameSequence(text', x', Shift(i, j, j', a), Shift(i, j, j', b))
  {
    if a <= b {
      ReachesMoved(text, x, i, j, text', x', j', a, b);
    } else {
      if !Outside(i, j, b) {
        ReachesInside(text, x, i, j, b, a);
      }
      ReachesMoved(text, x, i, j, text', x', j', b, a);
    }
  }
}
