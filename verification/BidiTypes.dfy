/** Character classes, directions and levels: `bidi/src/bidi_class.rs`,
    `bidi/src/direction.rs` and `bidi/src/level.rs`. */
module BidiTypes {
  import opened Options

  datatype BidiClass =
    | ArabicLetter
    | ArabicNumber
    | BoundaryNeutral
    | CommonSeparator
    | EuropeanNumber
    | EuropeanSeparator
    | EuropeanTerminator
    | FirstStrongIsolate
    | LeftToRight
    | LeftToRightEmbedding
    | LeftToRightIsolate
    | LeftToRightOverride
    | NonspacingMark
    | OtherNeutral
    | ParagraphSeparator
    | PopDirectionalFormat
    | PopDirectionalIsolate
    | RightToLeft
    | RightToLeftEmbedding
    | RightToLeftIsolate
    | RightToLeftOverride
    | SegmentSeparator
    | WhiteSpace
  {
    predicate IsIsoInit() {
      RightToLeftIsolate? || LeftToRightIsolate? || FirstStrongIsolate?
    }

    predicate IsIsoControl() {
      IsIsoInit() || PopDirectionalIsolate?
    }

    predicate IsNeutral() {
      OtherNeutral? || WhiteSpace? || SegmentSeparator? || ParagraphSeparator? || IsIsoControl()
    }

    /** The formatting characters that rule X9 removes. */
    predicate IsRemovedByX9() {
      || RightToLeftEmbedding?
      || LeftToRightEmbedding?
      || RightToLeftOverride?
      || LeftToRightOverride?
      || PopDirectionalFormat?
      || BoundaryNeutral?
    }
  }

  datatype Direction = LTR | RTL
  {
    function Opposite(): Direction {
      if this == LTR then RTL else LTR
    }

    function AsBidiClass(): BidiClass {
      if this == RTL then RightToLeft else LeftToRight
    }
  }

  /** Levels are `i8` values; -1 marks a character removed by rule X9. */
  const NO_LEVEL := -1
  const MAX_DEPTH := 125
  /** The highest level rules I1 and I2 can produce. */
  const MAX_RESOLVED_LEVEL := MAX_DEPTH + 1

  predicate Visible(level: int) {
    level != NO_LEVEL
  }

  /** Rust's remainder truncates toward zero, so a negative level never has remainder 1. */
  predicate OddLevel(level: int) {
    0 <= level && level % 2 == 1
  }

  function DirectionOf(level: int): Direction {
    if OddLevel(level) then RTL else LTR
  }

  function LevelClass(level: int): BidiClass {
    DirectionOf(level).AsBidiClass()
  }

  function Max(a: int, b: int): int {
    if a < b then b else a
  }

  function Min(a: int, b: int): int {
    if a < b then a else b
  }

  /** `None` when the next level does not fit: a negative result is cast to a huge `usize`. */
  function Fitting(level: int): Option<int> {
    if 0 <= level <= MAX_DEPTH then Some(level) else None
  }

  function LeastGreaterEven(level: int): Option<int> {
    Fitting(if level % 2 == 0 then level + 2 else level + 1)
  }

  function LeastGreaterOdd(level: int): Option<int> {
    Fitting(if OddLevel(level) then level + 2 else level + 1)
  }

  /** `least_greater_even` and `least_greater_odd` return the least level of the wanted parity
      above the argument, and fail exactly when that level is above 125. */
  lemma LeastGreaterIsLeast(level: int, odd: bool)
    requires 0 <= level <= MAX_DEPTH
    ensures var r := if odd then LeastGreaterOdd(level) else LeastGreaterEven(level);
            match r
            case Some(next) =>
              && level < next <= MAX_DEPTH
              && OddLevel(next) == odd
              && (forall m :: level < m < next ==> OddLevel(m) != odd)
            case None => forall m :: level < m <= MAX_DEPTH ==> OddLevel(m) != odd
  {
  }
}
