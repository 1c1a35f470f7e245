/** Rules P2 and P3, `paragraph_level` in `bidi/src/lib.rs`, and the isolate matching of BD9. */
module ParagraphLevels {
  import opened BidiTypes

  // ---------------------------------------------------------------- BD9

  /** Isolates opened and not closed in `content`, or -1 once a PDI closes more than was opened. */
  function Net(content: seq<BidiClass>): (d: int)
    ensures -1 <= d
  {
    if content == [] then 0 else
      var d, t := Net(content[..|content| - 1]), content[|content| - 1];
      if d < 0 then -1
      else if t.IsIsoInit() then d + 1
      else if t.PopDirectionalIsolate? then d - 1
      else d
  }

  predicate Balanced(content: seq<BidiClass>) {
    Net(content) == 0
  }

  /** BD9: the matching PDI of the initiator at `i` is the first one that its content leaves open. */
  predicate Matches(text: seq<BidiClass>, i: int, j: int) {
    && 0 <= i < j < |text|
    && text[i].IsIsoInit() && text[j].PopDirectionalIsolate?
    && Balanced(text[i + 1..j])
  }

  /** `k` stands between an initiator and its matching PDI, or after one that has none. */
  ghost predicate Inside(text: seq<BidiClass>, k: int) {
    exists i {:trigger Opens(text, i, k)} :: Opens(text, i, k)
  }

  /** The initiator at `i` has no matching PDI up to `k`. */
  ghost predicate Opens(text: seq<BidiClass>, i: int, k: int) {
    && 0 <= i < k < |text| && text[i].IsIsoInit()
    && forall j {:trigger Matches(text, i, j)} :: i < j <= k ==> !Matches(text, i, j)
  }

  ghost predicate UnmatchedPdi(text: seq<BidiClass>, k: int) {
    && 0 <= k < |text| && text[k].PopDirectionalIsolate?
    && forall i {:trigger Matches(text, i, k)} :: !Matches(text, i, k)
  }

  // ---------------------------------------------------------------- the code

  predicate IsStrong(t: BidiClass) {
    t.LeftToRight? || t.RightToLeft? || t.ArabicLetter?
  }

  function DirectionLevel(d: Direction): int {
    if d == LTR then 0 else 1
  }

  /** What `paragraph_level` returns when it enters `types` with `count` isolates open. */
  function LevelScan(types: seq<BidiClass>, respectPdi: bool, fallback: Direction, count: nat): int {
    if types == [] then DirectionLevel(fallback) else
      var t, rest := types[0], types[1..];
      if t.IsIsoInit() then LevelScan(rest, respectPdi, fallback, count + 1)
      else if t.PopDirectionalIsolate? then
        if count > 0 then LevelScan(rest, respectPdi, fallback, count - 1)
        else if respectPdi then DirectionLevel(fallback)
        else LevelScan(rest, respectPdi, fallback, 0)
      else if t.LeftToRight? && count == 0 then 0
      else if (t.RightToLeft? || t.ArabicLetter?) && count == 0 then 1
      else LevelScan(rest, respectPdi, fallback, count)
  }

  function LevelOf(types: seq<BidiClass>, respectPdi: bool, fallback: Direction): int {
    LevelScan(types, respectPdi, fallback, 0)
  }

  method ParagraphLevel(types: seq<BidiClass>, respectPdi: bool, fallback: Direction) returns (level: int)
    ensures level == LevelOf(types, respectPdi, fallback)
    ensures MeetsP2P3(types, respectPdi, fallback, level)
  {
    LevelMeetsP2P3(types, respectPdi, fallback);
    var isolateCount := 0;
    var k := 0;
    while k < |types|
      invariant 0 <= k <= |types| && 0 <= isolateCount
      invariant LevelOf(types, respectPdi, fallback)
             == LevelScan(types[k..], respectPdi, fallback, isolateCount)
    {
      var t := types[k];
      assert types[k..][1..] == types[k + 1..];
      if t.IsIsoInit() {
        isolateCount := isolateCount + 1;
      } else if t.PopDirectionalIsolate? {
        if isolateCount > 0 {
          isolateCount := isolateCount - 1;
        } else if respectPdi {
          break;
        }
      } else if t.LeftToRight? && isolateCount == 0 {
        return 0;
      } else if (t.RightToLeft? || t.ArabicLetter?) && isolateCount == 0 {
        return 1;
      }
      k := k + 1;
    }
    level := if fallback == LTR then 0 else 1;
  }

  // ---------------------------------------------------------------- P2 and P3 through BD9

  /** `p` is the first strong character outside every isolate, with no unmatched PDI before it when
      those end the text. */
  ghost predicate FirstStrong(text: seq<BidiClass>, respectPdi: bool, p: int) {
    && 0 <= p < |text| && IsStrong(text[p]) && !Inside(text, p)
    && (forall q {:trigger text[q]} :: 0 <= q < p ==> !IsStrong(text[q]) || Inside(text, q))
    && (respectPdi ==> forall q {:trigger UnmatchedPdi(text, q)} :: 0 <= q < p ==> !UnmatchedPdi(text, q))
  }

  ghost predicate MeetsP2P3(text: seq<BidiClass>, respectPdi: bool, fallback: Direction, level: int) {
    || (exists p :: FirstStrong(text, respectPdi, p) && level == if text[p].LeftToRight? then 0 else 1)
    || ((forall p :: !FirstStrong(text, respectPdi, p)) && level == DirectionLevel(fallback))
  }

  /** The isolate counter of the code after `k` characters. */
  function Count(text: seq<BidiClass>, k: nat): nat
    requires k <= |text|
  {
    if k == 0 then 0 else
      var c, t := Count(text, k - 1), text[k - 1];
      if t.IsIsoInit() then c + 1
      else if t.PopDirectionalIsolate? && c > 0 then c - 1
      else c
  }

  lemma NetStep(text: seq<BidiClass>, i: nat, k: nat)
    requires i <= k < |text|
    ensures var d, t := Net(text[i..k]), text[k];
            Net(text[i..k + 1]) ==
              if d < 0 then -1
              else if t.IsIsoInit() then d + 1
              else if t.PopDirectionalIsolate? then d - 1
              else d
  {
    assert text[i..k + 1][..k - i] == text[i..k];
  }

  lemma CountsOpen(text: seq<BidiClass>, i: nat, k: nat)
    requires i < k <= |text| && text[i].IsIsoInit() && 0 <= Net(text[i + 1..k])
    ensures Net(text[i + 1..k]) < Count(text, k)
    decreases k
  {
    if i + 1 < k {
      NetStep(text, i + 1, k - 1);
      CountsOpen(text, i, k - 1);
    }
  }

  /** For every value below the counter some initiator has that many isolates open inside it. */
  lemma {:induction false} OpenInitiator(text: seq<BidiClass>, k: nat, d: nat) returns (i: nat)
    requires k <= |text| && d < Count(text, k)
    ensures i < k && text[i].IsIsoInit() && Net(text[i + 1..k]) == d
    decreases k
  {
    var t := text[k - 1];
    if t.IsIsoInit() && d == 0 {
      i := k - 1;
    } else {
      var d' := if t.IsIsoInit() then d - 1 else if t.PopDirectionalIsolate? then d + 1 else d;
      i := OpenInitiator(text, k - 1, d');
      NetStep(text, i + 1, k - 1);
    }
  }

  lemma {:induction false} NetClosed(text: seq<BidiClass>, i: nat, k: nat)
    requires i < k <= |text| && text[i].IsIsoInit()
    ensures Net(text[i + 1..k]) < 0 <==> exists j {:trigger Matches(text, i, j)} :: j < k && Matches(text, i, j)
    decreases k
  {
    if i + 1 < k {
      NetStep(text, i + 1, k - 1);
      NetClosed(text, i, k - 1);
      if Net(text[i + 1..k - 1]) >= 0 && Net(text[i + 1..k]) < 0 {
        assert Matches(text, i, k - 1);
      }
    }
  }

  lemma NotClosed(text: seq<BidiClass>, i: nat, k: nat, j: int)
    requires i < k <= |text| && text[i].IsIsoInit() && 0 <= Net(text[i + 1..k]) && j < k
    ensures !Matches(text, i, j)
  {
    NetClosed(text, i, k);
  }

  lemma PositiveMatched(text: seq<BidiClass>, k: nat)
    requires k < |text| && 0 < Count(text, k) && text[k].PopDirectionalIsolate?
    ensures !UnmatchedPdi(text, k)
  {
    var i := OpenInitiator(text, k, 0);
    assert Matches(text, i, k);
  }

  lemma PositiveInside(text: seq<BidiClass>, k: nat)
    requires k < |text| && 0 < Count(text, k) && !text[k].PopDirectionalIsolate?
    ensures Inside(text, k)
  {
    var i := OpenInitiator(text, k, 0);
    forall j {:trigger Matches(text, i, j)} | i < j <= k ensures !Matches(text, i, j) {
      if j < k {
        NotClosed(text, i, k, j);
      }
    }
    assert Opens(text, i, k);
  }

  lemma ZeroOutside(text: seq<BidiClass>, k: nat, i: nat)
    requires k < |text| && Count(text, k) == 0
    ensures !Matches(text, i, k) && (!text[k].PopDirectionalIsolate? ==> !Opens(text, i, k))
  {
    if i < k && text[i].IsIsoInit() {
      NetClosed(text, i, k);
      if 0 <= Net(text[i + 1..k]) {
        CountsOpen(text, i, k);
      }
    }
  }

  /** The counter is positive exactly inside an isolate. */
  lemma CountInside(text: seq<BidiClass>, k: nat)
    requires k < |text|
    ensures !text[k].PopDirectionalIsolate? ==> (0 < Count(text, k) <==> Inside(text, k))
    ensures text[k].PopDirectionalIsolate? ==> (Count(text, k) == 0 <==> UnmatchedPdi(text, k))
  {
    if 0 < Count(text, k) {
      if text[k].PopDirectionalIsolate? {
        PositiveMatched(text, k);
      } else {
        PositiveInside(text, k);
      }
    } else {
      forall i: nat
        ensures !Matches(text, i, k) && (!text[k].PopDirectionalIsolate? ==> !Opens(text, i, k))
      {
        ZeroOutside(text, k, i);
      }
    }
  }

  /** No character before `k` decides the level. */
  ghost predicate UndecidedBefore(text: seq<BidiClass>, respectPdi: bool, k: nat)
    requires k <= |text|
  {
    && (forall q {:trigger text[q]} :: 0 <= q < k ==> !IsStrong(text[q]) || Inside(text, q))
    && (respectPdi ==> forall q {:trigger UnmatchedPdi(text, q)} :: 0 <= q < k ==> !UnmatchedPdi(text, q))
  }

  lemma {:induction false} ScanMeetsP2P3(text: seq<BidiClass>, respectPdi: bool, fallback: Direction, k: nat)
    requires k <= |text| && UndecidedBefore(text, respectPdi, k)
    ensures MeetsP2P3(text, respectPdi, fallback, LevelScan(text[k..], respectPdi, fallback, Count(text, k)))
    decreases |text| - k
  {
    if k < |text| {
      CountInside(text, k);
      assert text[k..][1..] == text[k + 1..];
      var t := text[k];
      if IsStrong(t) && Count(text, k) == 0 {
        assert FirstStrong(text, respectPdi, k);
      } else if t.PopDirectionalIsolate? && Count(text, k) == 0 && respectPdi {
        assert UnmatchedPdi(text, k);
      } else {
        ScanMeetsP2P3(text, respectPdi, fallback, k + 1);
      }
    }
  }

  /** `paragraph_level` returns the level of the first strong character outside every isolate, an
      unmatched initiator hiding the rest of the text, and otherwise the fallback. */
  lemma LevelMeetsP2P3(text: seq<BidiClass>, respectPdi: bool, fallback: Direction)
    ensures MeetsP2P3(text, respectPdi, fallback, LevelOf(text, respectPdi, fallback))
  {
    ScanMeetsP2P3(text, respectPdi, fallback, 0);
    assert text[0..] == text;
  }

  lemma P2P3Unique(text: seq<BidiClass>, respectPdi: bool, fallback: Direction, a: int, b: int)
    requires MeetsP2P3(text, respectPdi, fallback, a) && MeetsP2P3(text, respectPdi, fallback, b)
    ensures a == b
  {
  }

  // ---------------------------------------------------------------- isolates hide their content

  lemma {:induction false} ScanSkips(content: seq<BidiClass>, rest: seq<BidiClass>, respectPdi: bool,
                                     fallback: Direction, count: nat)
    requires 0 < count && 0 <= Net(content)
    ensures LevelScan(content + rest, respectPdi, fallback, count)
         == LevelScan(rest, respectPdi, fallback, count + Net(content))
    decreases |content|
  {
    if content == [] {
      assert content + rest == rest;
    } else {
      var n := |content| - 1;
      var c, t := content[..n], content[n];
      assert content + rest == c + ([t] + rest);
      ScanSkips(c, [t] + rest, respectPdi, fallback, count);
      assert ([t] + rest)[1..] == rest;
    }
  }

  /** What stands between an initiator and its matching PDI does not affect the level. */
  lemma {:induction false} ContentHidden(pre: seq<BidiClass>, init: BidiClass, c: seq<BidiClass>, c': seq<BidiClass>,
                      post: seq<BidiClass>, respectPdi: bool, fallback: Direction, count: nat)
    requires init.IsIsoInit() && Balanced(c) && Balanced(c')
    ensures LevelScan(pre + [init] + c + [PopDirectionalIsolate] + post, respectPdi, fallback, count)
         == LevelScan(pre + [init] + c' + [PopDirectionalIsolate] + post, respectPdi, fallback, count)
    decreases |pre|
  {
    var rest := [PopDirectionalIsolate] + post;
    var text, text' := pre + [init] + c + [PopDirectionalIsolate] + post,
                       pre + [init] + c' + [PopDirectionalIsolate] + post;
    if pre == [] {
      assert text[1..] == c + rest && text'[1..] == c' + rest;
      ScanSkips(c, rest, respectPdi, fallback, count + 1);
      ScanSkips(c', rest, respectPdi, fallback, count + 1);
    } else {
      var p := pre[1..];
      assert text[1..] == p + [init] + c + [PopDirectionalIsolate] + post;
      assert text'[1..] == p + [init] + c' + [PopDirectionalIsolate] + post;
      assert text[0] == text'[0] == pre[0];
      var t := pre[0];
      var next := if t.IsIsoInit() then count + 1
                  else if t.PopDirectionalIsolate? && count > 0 then count - 1 else count;
      ContentHidden(p, init, c, c', post, respectPdi, fallback, next);
    }
  }
}
