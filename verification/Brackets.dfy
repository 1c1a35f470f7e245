/** Rule N0: bracket pairs (BD16) and their resolution, on one text chain. */
module Brackets {
  import opened Options
  import opened BidiTypes
  import opened Neutrals

  datatype BracketType = Open | Close

  /** An entry of the bracket table: the other bracket of the pair, and which one this is. */
  datatype Bracket = Bracket(other: char, kind: BracketType)

  datatype Pair = Pair(openingPos: nat, closingPos: nat)

  datatype OpenBracket = OpenBracket(closing: char, position: nat)

  const MAX_PAIRING_DEPTH := 63

  /** U+232A and U+3009 are canonically equivalent. */
  predicate SameBracket(a: char, b: char) {
    || a == b
    || (a == '\U{232A}' && b == '\U{3009}')
    || (a == '\U{3009}' && b == '\U{232A}')
  }

  // ---------------------------------------------------------------- BD16 on a list

  datatype BracketState = BracketState(open: seq<OpenBracket>, pairs: seq<Pair>)

  /** The innermost open bracket that `c` closes, or -1. */
  function FindOpen(open: seq<OpenBracket>, c: char): (d: int)
    ensures -1 <= d < |open|
    ensures 0 <= d ==> SameBracket(open[d].closing, c)
    ensures forall j {:trigger open[j]} :: d < j < |open| ==> !SameBracket(open[j].closing, c)
  {
    if open == [] then -1
    else if SameBracket(open[|open| - 1].closing, c) then |open| - 1
    else FindOpen(open[..|open| - 1], c)
  }

  /** A bracket character counts only while its class is ON. */
  function BracketAt(chars: seq<char>, g: seq<BidiClass>, table: char -> Option<Bracket>, k: nat): Option<Bracket>
    requires k < |chars| == |g|
  {
    if g[k].OtherNeutral? then table(chars[k]) else None
  }

  function CloseBracket(s: BracketState, c: char, pos: nat): BracketState {
    var d := FindOpen(s.open, c);
    if d < 0 then s else BracketState(s.open[..d], s.pairs + [Pair(s.open[d].position, pos)])
  }

  /** BD16 after `k` characters, with a list that never overflows. */
  function Bd16(chars: seq<char>, g: seq<BidiClass>, table: char -> Option<Bracket>, k: nat): BracketState
    requires k <= |chars| == |g|
  {
    if k == 0 then BracketState([], [])
    else BracketStep(Bd16(chars, g, table, k - 1), BracketAt(chars, g, table, k - 1), chars[k - 1], k - 1)
  }

  function BracketStep(s: BracketState, b: Option<Bracket>, c: char, pos: nat): BracketState {
    if b == None then s
    else if b.value.kind == Open then s.(open := s.open + [OpenBracket(b.value.other, pos)])
    else CloseBracket(s, c, pos)
  }

  /** An opening bracket among the first `k` characters finds 63 brackets open. */
  ghost predicate Overflows(chars: seq<char>, g: seq<BidiClass>, table: char -> Option<Bracket>, k: nat)
    requires k <= |chars| == |g|
  {
    exists j {:trigger OverflowsAt(chars, g, table, j)} :: 0 <= j < k && OverflowsAt(chars, g, table, j)
  }

  predicate OverflowsAt(chars: seq<char>, g: seq<BidiClass>, table: char -> Option<Bracket>, j: nat)
    requires j < |chars| == |g|
  {
    && BracketAt(chars, g, table, j).Some? && BracketAt(chars, g, table, j).value.kind == Open
    && |Bd16(chars, g, table, j).open| >= MAX_PAIRING_DEPTH
  }

  lemma OverflowsNext(chars: seq<char>, g: seq<BidiClass>, table: char -> Option<Bracket>, k: nat)
    requires k < |chars| == |g|
    ensures Overflows(chars, g, table, k + 1) <==> Overflows(chars, g, table, k) || OverflowsAt(chars, g, table, k)
    ensures OverflowsAt(chars, g, table, k) ==> Overflows(chars, g, table, |g|)
  {
  }

  // ---------------------------------------------------------------- pairs nest

  predicate NestedOrDisjoint(p: Pair, q: Pair) {
    || p.closingPos < q.openingPos || q.closingPos < p.openingPos
    || (p.openingPos < q.openingPos && q.closingPos < p.closingPos)
    || (q.openingPos < p.openingPos && p.closingPos < q.closingPos)
  }

  /** Pairs open before they close, share no endpoint, and are nested or disjoint. */
  ghost predicate WellPaired(pairs: seq<Pair>, k: nat) {
    && (forall i {:trigger pairs[i]} :: 0 <= i < |pairs| ==> pairs[i].openingPos < pairs[i].closingPos < k)
    && (forall i, j {:trigger pairs[i], pairs[j]} :: 0 <= i < j < |pairs| ==> NestedOrDisjoint(pairs[i], pairs[j]))
  }

  ghost predicate PairingInvariant(s: BracketState, k: nat) {
    && WellPaired(s.pairs, k)
    && (forall i {:trigger s.open[i]} :: 0 <= i < |s.open| ==> s.open[i].position < k)
    && (forall i, j {:trigger s.open[i], s.open[j]} :: 0 <= i < j < |s.open| ==>
          s.open[i].position < s.open[j].position)
    && (forall i, j {:trigger s.open[i], s.pairs[j]} :: 0 <= i < |s.open| && 0 <= j < |s.pairs| ==>
          s.open[i].position < s.pairs[j].openingPos || s.pairs[j].closingPos < s.open[i].position)
  }

  lemma CloseKeepsInvariant(s: BracketState, c: char, k: nat)
    requires PairingInvariant(s, k)
    ensures PairingInvariant(CloseBracket(s, c, k), k + 1)
  {
  }

  lemma OpenKeepsInvariant(s: BracketState, b: OpenBracket, k: nat)
    requires PairingInvariant(s, k) && b.position == k
    ensures PairingInvariant(s.(open := s.open + [b]), k + 1)
    ensures PairingInvariant(s, k + 1)
  {
  }

  lemma StepKeepsInvariant(s: BracketState, s': BracketState, b: Option<Bracket>, c: char, k: nat, k': nat)
    requires PairingInvariant(s, k) && k' == k + 1 && s' == BracketStep(s, b, c, k)
    ensures PairingInvariant(s', k')
  {
    if b == None {
      OpenKeepsInvariant(s, OpenBracket(' ', k), k);
    } else if b.value.kind == Open {
      OpenKeepsInvariant(s, OpenBracket(b.value.other, k), k);
    } else {
      CloseKeepsInvariant(s, c, k);
    }
  }

  /** The pairs that BD16 finds are well paired. */
  lemma {:induction false} Bd16WellPaired(chars: seq<char>, g: seq<BidiClass>, table: char -> Option<Bracket>, k: nat)
    requires k <= |chars| == |g|
    ensures PairingInvariant(Bd16(chars, g, table, k), k)
    decreases k
  {
    if 0 < k {
      Bd16WellPaired(chars, g, table, k - 1);
      StepKeepsInvariant(Bd16(chars, g, table, k - 1), Bd16(chars, g, table, k),
                         BracketAt(chars, g, table, k - 1), chars[k - 1], k - 1, k);
    }
  }

  // ---------------------------------------------------------------- the stack object

  class BracketStack {
    const closingBracket: array<char>
    const position: array<nat>
    var depth: nat
    var pairs: seq<Pair>

    ghost predicate Valid()
      reads this
    {
      && closingBracket.Length == MAX_PAIRING_DEPTH && position.Length == MAX_PAIRING_DEPTH
      && depth <= MAX_PAIRING_DEPTH
    }

    ghost function Repr(): set<object> {
      {this, closingBracket, position}
    }

    ghost function OpenBrackets(): (open: seq<OpenBracket>)
      requires Valid()
      reads this, closingBracket, position
      ensures |open| == depth
      ensures forall d {:trigger open[d]} :: 0 <= d < depth ==> open[d] == OpenBracket(closingBracket[d], position[d])
    {
      var n := depth;
      seq(n, d requires 0 <= d < n reads this, closingBracket, position =>
        OpenBracket(closingBracket[d], position[d]))
    }

    ghost function State(): BracketState
      requires Valid()
      reads this, closingBracket, position
    {
      BracketState(OpenBrackets(), pairs)
    }

    constructor ()
      ensures Valid() && fresh(Repr()) && State() == BracketState([], [])
    {
      closingBracket := new char[MAX_PAIRING_DEPTH](_ => ' ');
      position := new nat[MAX_PAIRING_DEPTH](_ => 0);
      depth, pairs := 0, [];
    }

    method Clear()
      requires Valid()
      modifies this
      ensures Valid() && State() == BracketState([], [])
    {
      depth, pairs := 0, [];
    }

    method Push(closing: char, pos: nat) returns (ok: bool)
      requires Valid()
      modifies this, closingBracket, position
      ensures Valid() && (ok <==> old(depth) < MAX_PAIRING_DEPTH)
      ensures State() == if ok then old(State()).(open := old(OpenBrackets()) + [OpenBracket(closing, pos)])
                         else old(State())
    {
      var d := depth;
      if d >= MAX_PAIRING_DEPTH {
        return false;
      }
      closingBracket[d] := closing;
      position[d] := pos;
      depth := depth + 1;
      return true;
    }

    method SeekMatchingOpenBracket(closing: char, pos: nat) returns (found: bool)
      requires Valid()
      modifies this
      ensures Valid() && State() == CloseBracket(old(State()), closing, pos)
      ensures found <==> 0 <= FindOpen(old(OpenBrackets()), closing)
    {
      var d := depth;
      ghost var open := OpenBrackets();
      while 0 < d
        invariant 0 <= d <= depth == |open| && Valid() && OpenBrackets() == open && State() == old(State())
        invariant forall j {:trigger open[j]} :: d <= j < |open| ==> !SameBracket(open[j].closing, closing)
      {
        d := d - 1;
        if SameBracket(closingBracket[d], closing) {
          assert SameBracket(open[d].closing, closing);
          assert FindOpen(open, closing) == d;
          pairs := pairs + [Pair(position[d], pos)];
          depth := d;
          assert OpenBrackets() == open[..d];
          return true;
        }
      }
      return false;
    }
  }

  // ---------------------------------------------------------------- resolution of one pair

  ghost predicate StrongInside(g: seq<BidiClass>, pair: Pair, d: Direction)
    requires pair.closingPos < |g|
  {
    exists k {:trigger g[k]} :: pair.openingPos < k < pair.closingPos && StrongDirection(g[k]) == Some(d)
  }

  /** The direction that N0 b and c give to a pair. */
  ghost function PairDirection(g: seq<BidiClass>, lv: seq<int>, sos: BidiClass, embedding: Direction,
                               pair: Pair): Option<Direction>
    requires pair.openingPos < pair.closingPos < |g| == |lv|
  {
    if StrongInside(g, pair, embedding) then Some(embedding)
    else if StrongInside(g, pair, embedding.Opposite()) then
      if PriorDirection(g, lv, sos, pair.openingPos) == Some(embedding.Opposite())
      then Some(embedding.Opposite()) else Some(embedding)
    else None
  }

  /** `k` is one of the characters that were nonspacing marks and follow the bracket at `a`, with
      removed characters among them at most. */
  ghost predicate MarkOf(orig: seq<BidiClass>, lv: seq<int>, a: nat, k: nat)
    requires k < |orig| == |lv|
  {
    && a < k && orig[k].NonspacingMark?
    && forall j {:trigger orig[j]} :: a < j < k ==> orig[j].NonspacingMark? || !Visible(lv[j])
  }

  ghost function SetPair(g: seq<BidiClass>, orig: seq<BidiClass>, lv: seq<int>, pair: Pair, d: Direction)
    : (r: seq<BidiClass>)
    requires pair.openingPos < pair.closingPos < |g| == |lv| == |orig|
    ensures |r| == |g|
    ensures forall k {:trigger r[k]} :: 0 <= k < |g| ==>
      r[k] == if InPair(orig, lv, pair, k) then d.AsBidiClass() else g[k]
  {
    seq(|g|, k requires 0 <= k < |g| => if InPair(orig, lv, pair, k) then d.AsBidiClass() else g[k])
  }

  /** The brackets of a pair and the marks that follow them. */
  ghost predicate InPair(orig: seq<BidiClass>, lv: seq<int>, pair: Pair, k: nat)
    requires k < |orig| == |lv|
  {
    || k == pair.openingPos || k == pair.closingPos
    || (k < pair.closingPos && MarkOf(orig, lv, pair.openingPos, k))
    || MarkOf(orig, lv, pair.closingPos, k)
  }

  ghost function ResolvePair(g: seq<BidiClass>, orig: seq<BidiClass>, lv: seq<int>, sos: BidiClass,
                             embedding: Direction, pair: Pair): (r: seq<BidiClass>)
    requires pair.openingPos < pair.closingPos < |g| == |lv| == |orig|
    ensures |r| == |g|
  {
    match PairDirection(g, lv, sos, embedding, pair)
    case None => g
    case Some(d) => SetPair(g, orig, lv, pair, d)
  }

  ghost predicate PairsFit(pairs: seq<Pair>, n: nat) {
    forall i {:trigger pairs[i]} :: 0 <= i < |pairs| ==> pairs[i].openingPos < pairs[i].closingPos < n
  }

  /** The pairs are resolved one after the other. */
  ghost function ResolvePairs(g: seq<BidiClass>, orig: seq<BidiClass>, lv: seq<int>, sos: BidiClass,
                              embedding: Direction, pairs: seq<Pair>): (r: seq<BidiClass>)
    requires |g| == |lv| == |orig| && PairsFit(pairs, |g|)
    ensures |r| == |g|
  {
    if pairs == [] then g
    else ResolvePair(ResolvePairs(g, orig, lv, sos, embedding, pairs[..|pairs| - 1]),
                     orig, lv, sos, embedding, pairs[|pairs| - 1])
  }

  lemma ResolvePairsNext(g: seq<BidiClass>, orig: seq<BidiClass>, lv: seq<int>, sos: BidiClass,
                         embedding: Direction, pairs: seq<Pair>, i: nat)
    requires |g| == |lv| == |orig| && PairsFit(pairs, |g|) && i < |pairs|
    ensures PairsFit(pairs[..i], |g|) && PairsFit(pairs[..i + 1], |g|)
    ensures ResolvePairs(g, orig, lv, sos, embedding, pairs[..i + 1]) ==
      ResolvePair(ResolvePairs(g, orig, lv, sos, embedding, pairs[..i]), orig, lv, sos, embedding, pairs[i])
  {
    assert pairs[..i + 1][..i] == pairs[..i];
  }

  // ---------------------------------------------------------------- order of resolution

  ghost predicate ByOpening(pairs: seq<Pair>) {
    forall i, j {:trigger pairs[i], pairs[j]} :: 0 <= i < j < |pairs| ==> pairs[i].openingPos <= pairs[j].openingPos
  }

  function Insert(p: Pair, pairs: seq<Pair>): (r: seq<Pair>)
    ensures multiset(r) == multiset(pairs) + multiset{p}
  {
    if pairs == [] then [p]
    else if p.openingPos <= pairs[0].openingPos then
      assert multiset([p] + pairs) == multiset(pairs) + multiset{p};
      [p] + pairs
    else
      assert pairs == [pairs[0]] + pairs[1..];
      [pairs[0]] + Insert(p, pairs[1..])
  }

  lemma {:induction false} InsertSorted(p: Pair, pairs: seq<Pair>)
    requires ByOpening(pairs)
    ensures ByOpening(Insert(p, pairs))
    decreases |pairs|
  {
    if pairs != [] && pairs[0].openingPos < p.openingPos {
      var rest := Insert(p, pairs[1..]);
      InsertSorted(p, pairs[1..]);
      forall j {:trigger rest[j]} | 0 <= j < |rest| ensures pairs[0].openingPos <= rest[j].openingPos {
        assert rest[j] in multiset(rest);
        assert rest[j] in multiset(pairs[1..]) + multiset{p};
      }
    }
  }

  /** `sort_unstable_by_key` on the opening position */
  function SortPairs(pairs: seq<Pair>): (r: seq<Pair>)
    ensures multiset(r) == multiset(pairs)
  {
    if pairs == [] then []
    else
      assert pairs == [pairs[0]] + pairs[1..];
      Insert(pairs[0], SortPairs(pairs[1..]))
  }

  lemma {:induction false} SortPairsSorted(pairs: seq<Pair>)
    ensures ByOpening(SortPairs(pairs))
    decreases |pairs|
  {
    if pairs != [] {
      SortPairsSorted(pairs[1..]);
      InsertSorted(pairs[0], SortPairs(pairs[1..]));
    }
  }

  lemma SortPairsFit(pairs: seq<Pair>, n: nat)
    requires PairsFit(pairs, n)
    ensures PairsFit(SortPairs(pairs), n)
  {
    var r := SortPairs(pairs);
    forall i {:trigger r[i]} | 0 <= i < |r| ensures r[i].openingPos < r[i].closingPos < n {
      assert r[i] in multiset(r);
      assert r[i] in multiset(pairs);
    }
  }
}
