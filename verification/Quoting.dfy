/** The Windows command line of `pty/src/cmdbuilder.rs`: how it is quoted, and how a program takes it
    apart again. */
module Quoting {
  import opened Options

  /** A UTF-16 code unit, as `encode_wide` yields them. */
  type Unit = u: int | 0 <= u < 0x1_0000

  type Text = seq<Unit>

  const NUL: Unit := 0
  const TAB: Unit := 9
  const NEWLINE: Unit := 10
  const VERTICAL_TAB: Unit := 11
  const SPACE: Unit := 32
  const QUOTE: Unit := 34
  const BACKSLASH: Unit := 92

  function Slashes(n: nat): (s: Text)
    ensures |s| == n
    ensures forall k {:trigger s[k]} :: 0 <= k < n ==> s[k] == BACKSLASH
  {
    seq(n, k requires 0 <= k < n => BACKSLASH)
  }

  // ---------------------------------------------------------------- quoting

  predicate IsSpecial(c: Unit) {
    c == SPACE || c == TAB || c == NEWLINE || c == VERTICAL_TAB || c == QUOTE
  }

  predicate NeedsQuotes(arg: Text) {
    arg == [] || exists k {:trigger arg[k]} :: 0 <= k < |arg| && IsSpecial(arg[k])
  }

  /** The inside of a quoted argument, when `n` backslashes have been read but not yet written. */
  function Escape(arg: Text, n: nat): Text {
    if arg == [] then Slashes(2 * n)
    else if arg[0] == BACKSLASH then Escape(arg[1..], n + 1)
    else if arg[0] == QUOTE then Slashes(2 * n + 1) + [QUOTE] + Escape(arg[1..], 0)
    else Slashes(n) + [arg[0]] + Escape(arg[1..], 0)
  }

  function Quoted(arg: Text): Text {
    if NeedsQuotes(arg) then [QUOTE] + Escape(arg, 0) + [QUOTE] else arg
  }

  method PushBackslashes(cmdline: Text, count: nat) returns (r: Text)
    ensures r == cmdline + Slashes(count)
  {
    r := cmdline;
    for k := 0 to count
      invariant r == cmdline + Slashes(k)
    {
      r := r + [BACKSLASH];
    }
  }

  lemma EscapeAfterSlashes(arg: Text, n: nat)
    requires arg == [] || arg[0] != BACKSLASH
    ensures Escape(arg, n) ==
      if arg == [] then Slashes(2 * n)
      else (if arg[0] == QUOTE then Slashes(2 * n + 1) else Slashes(n)) + [arg[0]] + Escape(arg[1..], 0)
  {
  }

  lemma EscapeFrom(arg: Text, i: nat, n: nat)
    requires i <= |arg| && (i < |arg| ==> arg[i] != BACKSLASH)
    ensures Escape(arg[i..], n) ==
      if i == |arg| then Slashes(2 * n)
      else (if arg[i] == QUOTE then Slashes(2 * n + 1) else Slashes(n)) + [arg[i]] + Escape(arg[i + 1..], 0)
  {
    EscapeAfterSlashes(arg[i..], n);
    assert i < |arg| ==> arg[i..][0] == arg[i] && arg[i..][1..] == arg[i + 1..];
  }

  method AppendQuoted(arg: Text, cmdline: Text) returns (r: Text)
    ensures r == cmdline + Quoted(arg)
  {
    if !NeedsQuotes(arg) {
      return cmdline + arg;
    }
    r := AppendEscaped(arg, cmdline + [QUOTE]);
    r := r + [QUOTE];
  }

  /** The loop of `append_quoted`. */
  method AppendEscaped(arg: Text, cmdline: Text) returns (r: Text)
    ensures r == cmdline + Escape(arg, 0)
  {
    r := cmdline;
    var i := 0;
    while i < |arg|
      invariant 0 <= i <= |arg|
      invariant r + Escape(arg[i..], 0) == cmdline + Escape(arg, 0)
    {
      ghost var start, before := i, r;
      var numBackslashes := 0;
      while i < |arg| && arg[i] == BACKSLASH
        invariant start <= i <= |arg|
        invariant Escape(arg[i..], numBackslashes) == Escape(arg[start..], 0)
      {
        i := i + 1;
        numBackslashes := numBackslashes + 1;
      }
      EscapeFrom(arg, i, numBackslashes);
      if i == |arg| {
        r := PushBackslashes(r, numBackslashes * 2);
        return;
      }
      if arg[i] == QUOTE {
        r := PushBackslashes(r, numBackslashes * 2 + 1);
      } else {
        r := PushBackslashes(r, numBackslashes);
      }
      r := r + [arg[i]];
      i := i + 1;
      assert before + Escape(arg[start..], 0) == r + Escape(arg[i..], 0);
    }
    assert arg[i..] == [];
  }

  /** The words written by `write`, each after a space. */
  function Spaced(write: Text -> Text, args: seq<Text>): Text {
    if args == [] then [] else Spaced(write, args[..|args| - 1]) + [SPACE] + write(args[|args| - 1])
  }

  /** What follows the program name. */
  function QuotedTail(args: seq<Text>): Text {
    Spaced(Quoted, args)
  }

  predicate HasNul(arg: Text) {
    NUL in arg
  }

  /** `None` stands for the error on an argument with a NUL in it. */
  method Cmdline(exe: Text, args: seq<Text>) returns (r: Option<(Text, Text)>)
    ensures r.None? <==> exists k {:trigger args[k]} :: 0 <= k < |args| && HasNul(args[k])
    ensures r.Some? ==> r.value == (exe + [NUL], Quoted(exe) + QuotedTail(args) + [NUL])
  {
    var cmdline := AppendQuoted(exe, []);
    for k := 0 to |args|
      invariant forall j {:trigger args[j]} :: 0 <= j < k ==> !HasNul(args[j])
      invariant cmdline == Quoted(exe) + QuotedTail(args[..k])
    {
      assert args[..k + 1][..k] == args[..k];
      cmdline := cmdline + [SPACE];
      if HasNul(args[k]) {
        return None;
      }
      cmdline := AppendQuoted(args[k], cmdline);
    }
    assert args[..|args|] == args;
    cmdline := cmdline + [NUL];
    return Some((exe + [NUL], cmdline));
  }

  // ---------------------------------------------------------------- Microsoft's argument rules

  predicate IsBlank(c: Unit) {
    c == SPACE || c == TAB
  }

  datatype Parsed = Parsed(arg: Text, rest: Text)

  /** Reads one argument after `n` backslashes.  An even number of them before a quotation mark halves
      and leaves the mark a delimiter, an odd number halves and makes it literal; other backslashes
      stand for themselves.  With `doubling`, two marks inside a quoted part are one literal mark. */
  function ParseArgument(s: Text, quoted: bool, n: nat, doubling: bool): (p: Parsed)
    ensures |p.rest| <= |s|
    ensures p.rest == [] || IsBlank(p.rest[0])
    ensures s != [] && !IsBlank(s[0]) ==> |p.rest| < |s|
    decreases |s|
  {
    if s == [] then Parsed(Slashes(n), [])
    else if s[0] == BACKSLASH then ParseArgument(s[1..], quoted, n + 1, doubling)
    else if s[0] == QUOTE then
      if n % 2 == 1 then Prefixed(Slashes(n / 2) + [QUOTE], ParseArgument(s[1..], quoted, 0, doubling))
      else if doubling && quoted && |s| > 1 && s[1] == QUOTE then
        Prefixed(Slashes(n / 2) + [QUOTE], ParseArgument(s[2..], quoted, 0, doubling))
      else Prefixed(Slashes(n / 2), ParseArgument(s[1..], !quoted, 0, doubling))
    else if IsBlank(s[0]) && !quoted then Parsed(Slashes(n), s)
    else Prefixed(Slashes(n) + [s[0]], ParseArgument(s[1..], quoted, 0, doubling))
  }

  function Prefixed(pre: Text, p: Parsed): (q: Parsed)
    ensures q.rest == p.rest
  {
    Parsed(pre + p.arg, p.rest)
  }

  /** The arguments after the program name. */
  function ParseArguments(s: Text, doubling: bool): seq<Text>
    decreases |s|
  {
    if s == [] then []
    else if IsBlank(s[0]) then ParseArguments(s[1..], doubling)
    else
      var p := ParseArgument(s, false, 0, doubling);
      [p.arg] + ParseArguments(p.rest, doubling)
  }

  /** The program name: quotation marks group, and backslashes mean nothing. */
  function ParseProgram(s: Text, quoted: bool): (p: Parsed)
    ensures |p.rest| <= |s|
  {
    if s == [] then Parsed([], [])
    else if s[0] == QUOTE then ParseProgram(s[1..], !quoted)
    else if IsBlank(s[0]) && !quoted then Parsed([], s)
    else Prefixed([s[0]], ParseProgram(s[1..], quoted))
  }

  // ---------------------------------------------------------------- one argument

  predicate EndsArgument(tail: Text) {
    tail == [] || IsBlank(tail[0])
  }

  lemma SlashesAdd(m: nat, n: nat)
    ensures Slashes(m) + Slashes(n) == Slashes(m + n)
  {
  }

  lemma {:induction false} ParseSlashes(m: nat, s: Text, quoted: bool, n: nat, doubling: bool)
    ensures ParseArgument(Slashes(m) + s, quoted, n, doubling) == ParseArgument(s, quoted, n + m, doubling)
    decreases m
  {
    var t := Slashes(m) + s;
    if m == 0 {
      assert t == s;
    } else {
      assert t[0] == BACKSLASH && t[1..] == Slashes(m - 1) + s;
      ParseSlashes(m - 1, s, quoted, n + 1, doubling);
    }
  }

  /** Backslashes and then one mark, or one ordinary character, inside quotation marks. */
  lemma ParseEscapedCharacter(c: Unit, n: nat, e: Text, doubling: bool)
    requires c != BACKSLASH
    ensures var m := if c == QUOTE then 2 * n + 1 else n;
            ParseArgument(Slashes(m) + ([c] + e), true, 0, doubling) ==
            Prefixed(Slashes(n) + [c], ParseArgument(e, true, 0, doubling))
  {
    var m := if c == QUOTE then 2 * n + 1 else n;
    var s := [c] + e;
    ParseSlashes(m, s, true, 0, doubling);
    assert s[0] == c && s[1..] == e;
  }

  lemma ParseClosing(n: nat, tail: Text, doubling: bool)
    requires EndsArgument(tail)
    ensures ParseArgument(Slashes(2 * n) + ([QUOTE] + tail), true, 0, doubling) == Parsed(Slashes(n), tail)
  {
    var s := [QUOTE] + tail;
    ParseSlashes(2 * n, s, true, 0, doubling);
    assert s[0] == QUOTE && s[1..] == tail;
    assert Slashes(n) + Slashes(0) == Slashes(n);
  }

  lemma EscapeSplits(arg: Text, n: nat, closing: Text)
    requires arg != [] && arg[0] != BACKSLASH
    ensures var m := if arg[0] == QUOTE then 2 * n + 1 else n;
            Escape(arg, n) + closing == Slashes(m) + ([arg[0]] + (Escape(arg[1..], 0) + closing))
  {
    EscapeAfterSlashes(arg, n);
  }

  lemma SlashesAndRest(arg: Text, n: nat)
    requires arg != []
    ensures arg[0] == BACKSLASH ==> Slashes(n + 1) + arg[1..] == Slashes(n) + arg
    ensures Slashes(n) + [arg[0]] + (Slashes(0) + arg[1..]) == Slashes(n) + arg
  {
  }

  /** Parsing undoes the escaping inside quotation marks. */
  lemma {:induction false} ParseEscaped(arg: Text, n: nat, tail: Text, doubling: bool)
    requires EndsArgument(tail)
    ensures ParseArgument(Escape(arg, n) + ([QUOTE] + tail), true, 0, doubling) == Parsed(Slashes(n) + arg, tail)
    decreases |arg|
  {
    if arg == [] {
      ParseClosing(n, tail, doubling);
      assert Slashes(n) + arg == Slashes(n);
    } else {
      SlashesAndRest(arg, n);
      if arg[0] == BACKSLASH {
        ParseEscaped(arg[1..], n + 1, tail, doubling);
      } else {
        ParseEscaped(arg[1..], 0, tail, doubling);
        EscapeSplits(arg, n, [QUOTE] + tail);
        ParseEscapedCharacter(arg[0], n, Escape(arg[1..], 0) + ([QUOTE] + tail), doubling);
      }
    }
  }

  /** An argument without special characters is read as it stands. */
  lemma {:induction false} ParsePlain(arg: Text, n: nat, tail: Text, doubling: bool)
    requires EndsArgument(tail)
    requires forall k {:trigger arg[k]} :: 0 <= k < |arg| ==> !IsSpecial(arg[k])
    ensures ParseArgument(arg + tail, false, n, doubling) == Parsed(Slashes(n) + arg, tail)
    decreases |arg|
  {
    if arg == [] {
      assert arg + tail == tail;
      assert Slashes(n) + arg == Slashes(n);
    } else {
      var rest := arg[1..];
      assert (arg + tail)[1..] == rest + tail;
      if arg[0] == BACKSLASH {
        ParsePlain(rest, n + 1, tail, doubling);
        assert Slashes(n + 1) + rest == Slashes(n) + arg;
      } else {
        ParsePlain(rest, 0, tail, doubling);
        assert Slashes(n) + [arg[0]] + (Slashes(0) + rest) == Slashes(n) + arg;
      }
    }
  }

  lemma ParseOpening(e: Text, doubling: bool)
    ensures ParseArgument([QUOTE] + e, false, 0, doubling) == ParseArgument(e, true, 0, doubling)
  {
  }

  lemma ParseQuoted(arg: Text, tail: Text, doubling: bool)
    requires EndsArgument(tail)
    ensures ParseArgument(Quoted(arg) + tail, false, 0, doubling) == Parsed(arg, tail)
  {
    assert Slashes(0) + arg == arg;
    if NeedsQuotes(arg) {
      var e := Escape(arg, 0);
      assert [QUOTE] + e + [QUOTE] + tail == [QUOTE] + (e + ([QUOTE] + tail));
      ParseOpening(e + ([QUOTE] + tail), doubling);
      ParseEscaped(arg, 0, tail, doubling);
    } else {
      ParsePlain(arg, 0, tail, doubling);
    }
  }

  lemma QuotedStarts(arg: Text)
    ensures Quoted(arg) != [] && !IsBlank(Quoted(arg)[0])
  {
  }

  // ---------------------------------------------------------------- the whole line

  /** The tail of a command line, read from the left. */
  lemma {:induction false} SpacedFromLeft(write: Text -> Text, args: seq<Text>)
    requires args != []
    ensures Spaced(write, args) == [SPACE] + write(args[0]) + Spaced(write, args[1..])
    decreases |args|
  {
    var n := |args| - 1;
    if n == 0 {
      assert args[..0] == [] && args[1..] == [];
    } else {
      var pre, rest := args[..n], args[1..];
      SpacedFromLeft(write, pre);
      assert pre[1..] == rest[..n - 1] && rest[n - 1] == args[n] && pre[0] == args[0];
    }
  }

  lemma TailFromLeft(args: seq<Text>)
    requires args != []
    ensures QuotedTail(args) == [SPACE] + Quoted(args[0]) + QuotedTail(args[1..])
  {
    SpacedFromLeft(Quoted, args);
  }

  lemma ParseNext(s: Text, arg: Text, tail: Text, doubling: bool)
    requires s != [] && !IsBlank(s[0]) && ParseArgument(s, false, 0, doubling) == Parsed(arg, tail)
    ensures ParseArguments([SPACE] + s, doubling) == [arg] + ParseArguments(tail, doubling)
  {
  }

  lemma ParseFront(arg: Text, tail: Text, doubling: bool)
    requires EndsArgument(tail)
    ensures ParseArguments([SPACE] + Quoted(arg) + tail, doubling) == [arg] + ParseArguments(tail, doubling)
  {
    var q := Quoted(arg);
    QuotedStarts(arg);
    ParseQuoted(arg, tail, doubling);
    ParseNext(q + tail, arg, tail, doubling);
    assert [SPACE] + q + tail == [SPACE] + (q + tail);
  }

  lemma TailEndsArgument(args: seq<Text>)
    ensures EndsArgument(QuotedTail(args))
  {
    if args != [] {
      TailFromLeft(args);
    }
  }

  /** Splitting what follows the program name gives back exactly the arguments, whatever they hold. */
  lemma {:induction false} RoundTrip(args: seq<Text>, doubling: bool)
    ensures ParseArguments(QuotedTail(args), doubling) == args
    decreases |args|
  {
    if args != [] {
      TailFromLeft(args);
      TailEndsArgument(args[1..]);
      ParseFront(args[0], QuotedTail(args[1..]), doubling);
      RoundTrip(args[1..], doubling);
      assert args == [args[0]] + args[1..];
    }
  }

  /** The text that a NUL-terminated line holds. */
  function UpToNul(s: Text): Text {
    if s == [] || s[0] == NUL then [] else [s[0]] + UpToNul(s[1..])
  }

  lemma {:induction false} UpToNulStops(s: Text)
    requires !HasNul(s)
    ensures UpToNul(s + [NUL]) == s
    decreases |s|
  {
    if s != [] {
      assert (s + [NUL])[1..] == s[1..] + [NUL];
      UpToNulStops(s[1..]);
    }
  }

  lemma {:induction false} EscapeHasNul(arg: Text, n: nat)
    ensures HasNul(Escape(arg, n)) <==> HasNul(arg)
    decreases |arg|
  {
    if arg != [] {
      assert arg == [arg[0]] + arg[1..];
      EscapeHasNul(arg[1..], if arg[0] == BACKSLASH then n + 1 else 0);
    }
  }

  lemma QuotedHasNul(arg: Text)
    ensures HasNul(Quoted(arg)) <==> HasNul(arg)
  {
    EscapeHasNul(arg, 0);
  }

  lemma {:induction false} TailHasNul(args: seq<Text>)
    requires forall k {:trigger args[k]} :: 0 <= k < |args| ==> !HasNul(args[k])
    ensures !HasNul(QuotedTail(args))
    decreases |args|
  {
    if args != [] {
      TailHasNul(args[..|args| - 1]);
      QuotedHasNul(args[|args| - 1]);
    }
  }

  // ---------------------------------------------------------------- the program name

  /** What the escaping of a text without quotation marks adds: its trailing backslashes once more. */
  function TrailingSlashes(s: Text): nat {
    if s == [] || s[|s| - 1] != BACKSLASH then 0 else 1 + TrailingSlashes(s[..|s| - 1])
  }

  function ProgramRead(exe: Text): Text {
    if NeedsQuotes(exe) then exe + Slashes(TrailingSlashes(exe)) else exe
  }

  predicate HasQuote(s: Text) {
    QUOTE in s
  }

  lemma {:induction false} TrailingAfter(pre: Text, c: Unit, s: Text)
    requires c != BACKSLASH
    ensures TrailingSlashes(pre + [c] + s) == TrailingSlashes(s)
    decreases |s|
  {
    var t := pre + [c] + s;
    if s != [] {
      assert t[..|t| - 1] == pre + [c] + s[..|s| - 1];
      TrailingAfter(pre, c, s[..|s| - 1]);
    }
  }

  lemma {:induction false} TrailingOfSlashes(n: nat)
    ensures TrailingSlashes(Slashes(n)) == n
    decreases n
  {
    if 0 < n {
      assert Slashes(n)[..n - 1] == Slashes(n - 1);
      TrailingOfSlashes(n - 1);
    }
  }

  /** Without quotation marks the escaping only repeats the backslashes at the end. */
  lemma {:induction false} EscapeWithoutQuotes(arg: Text, n: nat)
    requires !HasQuote(arg)
    ensures Escape(arg, n) == Slashes(n) + arg + Slashes(TrailingSlashes(Slashes(n) + arg))
    decreases |arg|
  {
    if arg == [] {
      TrailingOfSlashes(n);
      assert Slashes(n) + arg == Slashes(n);
      SlashesAdd(n, n);
    } else {
      var rest := arg[1..];
      if arg[0] == BACKSLASH {
        EscapeWithoutQuotes(rest, n + 1);
        assert Slashes(n + 1) + rest == Slashes(n) + arg;
      } else {
        EscapeWithoutQuotes(rest, 0);
        TrailingAfter(Slashes(n), arg[0], rest);
        assert Slashes(n) + [arg[0]] + rest == Slashes(n) + arg;
        assert Slashes(0) + rest == rest;
      }
    }
  }

  lemma {:induction false} ProgramLiteral(x: Text, tail: Text, quoted: bool)
    requires !HasQuote(x)
    requires quoted || forall k {:trigger x[k]} :: 0 <= k < |x| ==> !IsBlank(x[k])
    ensures ParseProgram(x + tail, quoted) == Prefixed(x, ParseProgram(tail, quoted))
    decreases |x|
  {
    if x == [] {
      assert x + tail == tail;
    } else {
      assert (x + tail)[1..] == x[1..] + tail;
      ProgramLiteral(x[1..], tail, quoted);
      assert [x[0]] + x[1..] == x;
    }
  }

  /** The program name is read back up to backslashes at its end, which a quoted name has twice. */
  lemma ProgramRoundTrip(exe: Text, tail: Text)
    requires !HasQuote(exe) && EndsArgument(tail)
    ensures ParseProgram(Quoted(exe) + tail, false) == Parsed(ProgramRead(exe), tail)
  {
    assert ParseProgram(tail, false) == Parsed([], tail);
    if NeedsQuotes(exe) {
      var e := Escape(exe, 0);
      EscapeWithoutQuotes(exe, 0);
      assert Slashes(0) + exe == exe;
      var closing := [QUOTE] + tail;
      assert closing[1..] == tail;
      ProgramLiteral(e, closing, true);
      assert Quoted(exe) + tail == [QUOTE] + (e + closing);
      assert ([QUOTE] + (e + closing))[1..] == e + closing;
    } else {
      ProgramLiteral(exe, tail, false);
    }
  }

  /** A program name is read from the characters of the line, without its quotation marks. */
  lemma {:induction false} ProgramCharacters(s: Text, quoted: bool, c: Unit)
    requires c in ParseProgram(s, quoted).arg
    ensures c in s && c != QUOTE
    decreases |s|
  {
    if s != [] {
      assert s == [s[0]] + s[1..];
      var quoted' := if s[0] == QUOTE then !quoted else quoted;
      if c in ParseProgram(s[1..], quoted').arg {
        ProgramCharacters(s[1..], quoted', c);
      }
    }
  }

  lemma {:induction false} UpToNulHasNone(s: Text)
    ensures !HasNul(UpToNul(s))
    decreases |s|
  {
    if s != [] && s[0] != NUL {
      UpToNulHasNone(s[1..]);
    }
  }

  lemma PlainLineRoundTrip(exe: Text, args: seq<Text>, doubling: bool)
    requires !HasQuote(exe) && !HasNul(exe)
    requires forall k {:trigger args[k]} :: 0 <= k < |args| ==> !HasNul(args[k])
    ensures var p := ParseProgram(UpToNul(Quoted(exe) + QuotedTail(args) + [NUL]), false);
            p.arg == ProgramRead(exe) && ParseArguments(p.rest, doubling) == args
  {
    TailEndsArgument(args);
    TailHasNul(args);
    QuotedHasNul(exe);
    UpToNulStops(Quoted(exe) + QuotedTail(args));
    ProgramRoundTrip(exe, QuotedTail(args));
    RoundTrip(args, doubling);
  }

  /** The whole command line.  Program name and arguments come back if and only if the name has no
      quotation mark and no NUL and is not quoted with a backslash at its end; the arguments come back
      in any case for a name without quotation mark and NUL. */
  lemma LineRoundTrip(exe: Text, args: seq<Text>, doubling: bool)
    requires forall k {:trigger args[k]} :: 0 <= k < |args| ==> !HasNul(args[k])
    ensures var p := ParseProgram(UpToNul(Quoted(exe) + QuotedTail(args) + [NUL]), false);
            && (p.arg == exe && ParseArguments(p.rest, doubling) == args <==>
                && !HasQuote(exe) && !HasNul(exe)
                && !(NeedsQuotes(exe) && exe != [] && exe[|exe| - 1] == BACKSLASH))
            && (!HasQuote(exe) && !HasNul(exe) ==> ParseArguments(p.rest, doubling) == args)
  {
    var line := UpToNul(Quoted(exe) + QuotedTail(args) + [NUL]);
    UpToNulHasNone(Quoted(exe) + QuotedTail(args) + [NUL]);
    if !HasQuote(exe) && !HasNul(exe) {
      PlainLineRoundTrip(exe, args, doubling);
    } else if ParseProgram(line, false).arg == exe {
      ProgramCharacters(line, false, if HasQuote(exe) then QUOTE else NUL);
    }
  }

  /** A quotation mark in the program name can swallow the arguments as well. */
  lemma QuoteInProgramName()
    ensures var exe, arg: Text := [QUOTE], [65];
            ParseArguments(ParseProgram(Quoted(exe) + QuotedTail([arg]), false).rest, true) != [arg]
  {
    var exe, arg: Text := [QUOTE], [65];
    var line := Quoted(exe) + QuotedTail([arg]);
    assert Escape(exe[1..], 0) == [];
    assert Escape(exe, 0) == [BACKSLASH, QUOTE];
    assert Quoted(exe) == [QUOTE, BACKSLASH, QUOTE, QUOTE];
    assert !IsSpecial(arg[0]);
    TailFromLeft([arg]);
    assert [arg][1..] == [] && QuotedTail([arg][1..]) == [];
    assert QuotedTail([arg]) == [SPACE, 65];
    assert line == [QUOTE, BACKSLASH, QUOTE, QUOTE, SPACE, 65];
    assert line[1..] == [BACKSLASH, QUOTE, QUOTE, SPACE, 65];
    assert line[1..][1..] == [QUOTE, QUOTE, SPACE, 65];
    assert line[1..][1..][1..] == [QUOTE, SPACE, 65];
    assert line[1..][1..][1..][1..] == [SPACE, 65];
    assert line[1..][1..][1..][1..][1..] == [65];
    assert line[1..][1..][1..][1..][1..][1..] == [];
    assert ParseProgram([65], true).rest == [];
    assert ParseProgram([SPACE, 65], true).rest == [];
    assert ParseProgram([QUOTE, SPACE, 65], false).rest == [];
    assert ParseProgram([QUOTE, QUOTE, SPACE, 65], true).rest == [];
  }
}
