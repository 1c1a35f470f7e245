# Text layout, key lookup, quoting and process trees, verified

A Dafny model of the parts of the repository that carry real algorithms, with proofs that they do
what the standards and the comments ask of them, or exactly when they do.

* **Bidirectional text** (`bidi/src`), rules P2 to L2 of UAX #9. `BidiContext` is a class whose fields
  the rules overwrite in turn, as in the source; every rule is a method with the loops of the source,
  proved against a statement of the rule in which all values are those from before the rule. That
  statement is the one of sections 3.3 and 3.4 of UAX #9, except where the list below says how and when
  the code departs from it.
* **`KeyMap`** (`termwiz/src/keymap.rs`), a trie that insertion modifies in place, against a plain map.
* **Windows quoting** (`pty/src/cmdbuilder.rs`), against Microsoft's rules for splitting a command line.
* **Process tree** (`procinfo/src/lib.rs`), on an arbitrary parent graph.

| file | contents |
|---|---|
| `Options`, `BidiTypes` | options; character classes, directions, levels |
| `ParagraphLevels` | P2 and P3 through the isolate matching of BD9 |
| `LevelStacks`, `ExplicitLevels`, `ExplicitMachine` | X1 to X8: the stack object, the state machine, the moves on the object |
| `Isolates`, `Embeddings`, `ExplicitText` | what isolates and embeddings leave behind; explicit levels of a text, non-interference |
| `LevelRuns`, `Chains`, `TextChains` | X10: level runs, isolating run sequences, text chains |
| `OpenIsolates`, `IsolatePairs` | levels inside an open isolate; where the runs of the code are joined |
| `IsolatingSequences`, `SplitTexts` | when the chains are the sequences of BD13; texts in which they are not |
| `WeakTypes`, `Neutrals`, `ChainRules` | W1 to W7, N1, N2 on a chain and on all chains of a paragraph |
| `NonspacingMarks` | W1 against UAX #9 |
| `Brackets`, `BracketRules` | BD16 and N0 |
| `BracketOverflow`, `OverflowingChains` | what an overflow of the bracket stack costs on later chains and on its own |
| `RemovedCharacters`, `RemovedBrackets` | every rule works as if the removed characters were not there |
| `Lines`, `Reorder`, `VisualOrder`, `VisualRuns` | I1, I2, L1, runs, L2, reordered runs |
| `Resolution`, `Determinism`, `BidiContexts` | the whole paragraph, its one outcome, the object |
| `ReplacedContent`, `IsolatedChains`, `IsolatedContent` | what stands in an isolate has no effect on what stands outside |
| `WitnessTexts` | paragraphs and lines that are shown wrongly |
| `KeyTrie`, `KeyMaps` | the trie as a value and as an object |
| `Quoting`, `ProcessTrees` | the other two cores |

## What the code does, where its documentation says otherwise

* The status stack has 125 slots and `push` drops an entry when all are taken; UAX #9 asks for 127. A
  drop needs base level 0 and all of 0 to 124 stacked. A dropped isolate is still counted, and closing
  the isolates open then runs the X6a loop off the stack (`RefusalIff`, `UnwindingSafeIff`, `RefusedText`);
  the state before an isolate comes back after its PDI exactly when none was dropped in between
  (`IsolateIsTransparentIff`).
  A dropped embedding is not counted as an overflow either, so its PDF pops an older entry, unless that is
  an isolate or the last one (`EmbeddingAndPdfIff`, `EmbeddingRestoresIff`, `RefusedEmbeddingUnbalanced`).
* An isolate initiator ends its run in the code whatever comes next; the level runs of BD7 go on as long as the
  level does. So the code splits a sequence of BD13 at an initiator with a character of its level after it that
  is no PDI (`SplitApart`). Without overrides and refused isolates the chains are the sequences of BD13 exactly
  when every isolate that overflows shows nothing before its PDI, or before the separator if it has none, and
  no initiator at the base level stands right before the separator (`BD13Iff`). `SeparatorIsSplit` and
  `NumberLosesContext` give texts; in the second a number ends with another class and level.
* `reverse_levels` starts its search for the lowest odd level at 126, which is a level rules I1 and I2 can
  reach. A line with no odd level and two neighbours at 126 is shown in the wrong order, and only such a
  line is (`ReverseLevels`); a paragraph that does it is given (`SentinelReached`).
* A bracket stack overflow ends rule N0 for all chains that are left, not only for the chain at hand as the
  comment above it says (`ResolvePairedBrackets`). This changes nothing exactly when every later chain
  overflows too or would not be changed by N0 (`OverflowHarmlessIff`); a paragraph where it matters is
  given (`LaterPairUnresolved`). On the chain that overflows the code, and its comment, leave all pairs alone;
  BD16 in section 3.1.3 of UAX #9 only stops looking for more, so that the pairs found before are resolved.
  `StandardOverflowIff` says exactly when that makes a difference, and `EarlierPairUnresolved` gives a chain.
* The doubt in the comment on `BidiRun` is settled: no removed character is ever inside a run (`CollectRuns`).
* W1 gives a nonspacing mark after an isolate control the class of that control; UAX #9 says ON. The two
  rules agree exactly on the chains without such a mark (`MeetsStandardIff`, `MarkDeparts`), and the final
  classes are the same in any case when no bracket character is a nonspacing mark (`DepartureIsHarmless`).
* `reordered_runs` indexes the levels of the line with paragraph positions. On a line that does not start
  the paragraph this panics exactly when the position of a visible character is not below the length of the
  line (`ReorderedRuns`, `LineRunsPanic`). Without a panic the runs are right exactly when every visible
  character happens to find its own level (`RunsRightIff`); otherwise characters get a wrong level or are
  dropped from the line without a sign (`CharacterIsLost`).
* `KeyMap::lookup` asks for more data, or calls a match ambiguous, also when the input has already left the
  trie (`LookupRefinesMap` says exactly when, `DeadEnd` gives an input).
* The command line brings back every program name except those with a quotation mark or a NUL and those
  that are quoted and end with a backslash (`LineRoundTrip`, `QuoteInProgramName`).
* The process tree shows every parent chain of up to 128 steps exactly when no pid has two of different
  length (`ExactIffUniqueDepths`); distinct pids are enough (`DistinctIsUnique`).

Panics are modelled: by the state `Panic` of the X1 to X8 machine and the `ok` results of the methods, by
`None` where an index is out of bounds, by `Panic` in the answers of `KeyMap`. The class table and the
bracket table are parameters.

## Model

| member | source | states |
|---|---|---|
| BidiTypes.LeastGreaterIsLeast | bidi/src/level.rs:33-57 | the next even or odd level is the least one of that parity above, and there is none exactly when it would pass 125 |
| ParagraphLevels.ParagraphLevel | bidi/src/lib.rs:1846-1872 | the counter loop returns the level of the first strong character outside every isolate of BD9 (an unmatched initiator hides the rest), stops at an unmatched PDI when asked to, and falls back otherwise |
| ParagraphLevels.P2P3Unique | bidi/src/lib.rs:1846-1872 | the declarative form of P2 and P3 determines one level |
| ParagraphLevels.CountInside | bidi/src/lib.rs:1848-1865 | the counter is positive exactly inside an isolate as BD9 matching defines it, and 0 at a PDI exactly when it is unmatched |
| ParagraphLevels.ContentHidden | bidi/src/lib.rs:1846-1872 | replacing what stands between an initiator and its PDI changes no paragraph level |
| LevelStacks.LevelStack.constructor | bidi/src/level_stack.rs:22-29 | a new stack is empty |
| LevelStacks.LevelStack.Push | bidi/src/level_stack.rs:35-51 | the entry goes on top, or nothing changes when 125 slots are in use |
| LevelStacks.LevelStack.Pop | bidi/src/level_stack.rs:53-57 | the top entry goes, and an empty stack stays empty |
| LevelStacks.LevelStack.EmbeddingLevel | bidi/src/level_stack.rs:59-61 | the level of the top entry |
| LevelStacks.LevelStack.IsolateStatus | bidi/src/level_stack.rs:75-77 | the isolate flag of the top entry |
| LevelStacks.LevelStack.ApplyOverride | bidi/src/level_stack.rs:67-73 | the class under the override of the top entry |
| ExplicitMachine.EmbedMove | bidi/src/lib.rs:1340-1387 | X2 to X5 on the stack object and the counters |
| ExplicitMachine.IsolateMove | bidi/src/lib.rs:1388-1439 | X5a to X5c on the stack object and the counters |
| ExplicitMachine.CloseMove | bidi/src/lib.rs:1440-1460 | X6a, with its unwinding loop; fails exactly when the code reads an empty stack |
| ExplicitMachine.PopMove | bidi/src/lib.rs:1461-1474 | X7 |
| ExplicitMachine.Move | bidi/src/lib.rs:1336-1489 | one character on the stack object is one step of the state machine |
| ExplicitLevels.RunSafe | bidi/src/lib.rs:1322-1490 | after any text the stacked levels rise strictly from the base level to at most 125, and no more isolates are stacked than counted |
| ExplicitLevels.RefusalIff | bidi/src/level_stack.rs:35-39 | a push is refused exactly when the base level is 0, levels 0 to 124 are all stacked, no overflow is pending and an odd level is asked for |
| ExplicitLevels.BaseOneAccepts | bidi/src/level_stack.rs:35-39 | with base level 1 no text ever has a push refused, of an embedding or of an isolate |
| ExplicitLevels.RunExact | bidi/src/lib.rs:1388-1460 | while no isolate is refused, `valid_isolate` is the number of isolate entries |
| ExplicitLevels.StepPanicsIff | bidi/src/lib.rs:1447-1459 | a step panics exactly at a PDI with an isolate counted, none overflowing and none stacked |
| ExplicitLevels.UnwindingSafeIff | bidi/src/lib.rs:1447-1459 | no run of PDIs after any beginning of the text makes the loop run off the stack, if and only if no isolate is refused |
| ExplicitLevels.RefusedText | bidi/src/lib.rs:1388-1400 | 124 embeddings, an isolate and its PDI panic |
| ExplicitLevels.EmbeddingAndPdfIff | bidi/src/lib.rs:1340-1474 | an embedding and the PDF right after it leave the state as it was, if and only if the push is not refused or an isolate is on top |
| Embeddings.EmbeddingRestoresIff | bidi/src/lib.rs:1340-1474 | an embedding, any balanced content with accepted isolates in it and the PDF bring the state back, if and only if no push outside those isolates is refused, or the stack held the base entry alone or an isolate on top |
| Embeddings.IsolatesElided | bidi/src/lib.rs:1388-1460 | accepted isolates can be left out of a text without changing the state after it |
| ExplicitLevels.RefusedEmbeddingUnbalanced | bidi/src/lib.rs:1340-1352 | after 124 embeddings, one more and its PDF leave the state after 123 |
| Isolates.IsolateRestoresState | bidi/src/lib.rs:1388-1460 | whatever stands between an initiator and its PDI, stack and counters after the PDI are those before the initiator, unless an isolate is refused |
| Isolates.IsolateRestoresIff | bidi/src/lib.rs:1388-1460 | from a state that counts what it stacks, that is so if and only if none is refused |
| ExplicitText.IsolateIsTransparent | bidi/src/lib.rs:1388-1460 | the same for BD9 matching in any text, FSI included, if no isolate is refused up to the PDI |
| ExplicitText.IsolateIsTransparentIff | bidi/src/lib.rs:1388-1460 | and only if no isolate is refused from the initiator to its PDI |
| ExplicitText.IsolateEndsAgree | bidi/src/lib.rs:1388-1460 | an initiator and its matching PDI get the same level and override, if no isolate is refused up to the PDI |
| ExplicitText.NoInterferenceBefore | bidi/src/lib.rs:1322-1490 | replacing the content of an isolate changes no level and no class up to the initiator |
| ExplicitText.NoInterferenceAfter | bidi/src/lib.rs:1322-1490 | nor from the matching PDI on, if no isolate is refused before it, whatever comes later |
| ExplicitText.AcceptedNeverPanics | bidi/src/lib.rs:1447-1459 | a text without a refused isolate never panics, and with base level 1 no text does |
| ExplicitText.ExplicitRange | bidi/src/lib.rs:1322-1507 | after X9 exactly the removed characters have no level, the others one from the base level to 125 |
| BidiContexts.BidiContext.constructor | bidi/src/lib.rs:197-199 | a new object is empty and ready for lines |
| BidiContexts.BidiContext.TakeFromTop | bidi/src/lib.rs:1484-1487 | one character gets level and override of the top entry, nothing else changes |
| BidiContexts.BidiContext.TakeAfter | bidi/src/lib.rs:1440-1483 | the separator gets the base level, a PDI level and override of the entry that is then on top |
| BidiContexts.BidiContext.SymbolFor | bidi/src/lib.rs:1415-1424 | an FSI acts as the initiator that the first strong character up to its PDI asks for |
| BidiContexts.BidiContext.ExplicitCharacter | bidi/src/lib.rs:1336-1489 | one round of the loop assigns what the state machine says |
| BidiContexts.BidiContext.ExplicitCharacters | bidi/src/lib.rs:1332-1490 | the loop assigns what the states of the machine say, and fails exactly when one of them is the panic |
| BidiContexts.BidiContext.ExplicitEmbeddingLevels | bidi/src/lib.rs:1322-1490 | X1 to X8 assign the levels and classes of the state machine to every character that X9 leaves, and succeed exactly when no step panics |
| BidiContexts.BidiContext.DeleteFormatCharacters | bidi/src/lib.rs:1493-1507 | X9 takes the level from exactly the format characters |
| BidiContexts.BidiContext.ResolveExplicit | bidi/src/lib.rs:472-474 | after X9 levels and classes depend on the text and the base level only, not on the paragraph before |
| LevelRuns.SpanOneRun | bidi/src/lib.rs:1799-1841 | a span has one visible level, an isolate initiator only at its end, and cannot be longer |
| BidiContexts.BidiContext.CollectLevelRuns | bidi/src/lib.rs:1510-1533 | the runs tile the paragraph up to the removed characters at its end |
| BidiContexts.BidiContext.CalculateSorEor | bidi/src/lib.rs:1538-1556 | each run is compared with its neighbours in the list |
| LevelRuns.EndsMeetX10 | bidi/src/lib.rs:1538-1556 | this gives sor and eor of X10, which look at the nearest visible characters |
| LevelRuns.VisibleInOneRun | bidi/src/lib.rs:1510-1533 | every visible character is in exactly one run, whose level it has |
| BidiContexts.BidiContext.IdentifyRuns | bidi/src/lib.rs:1510-1536 | the level runs of X10 with sor and eor |
| BidiContexts.BidiContext.LinkRuns | bidi/src/lib.rs:1619-1640 | from an initiator a sequence goes on with the next free run of its level that starts with a PDI |
| BidiContexts.BidiContext.TakeRun | bidi/src/lib.rs:1628-1639 | the run goes to the sequence, its length is added, and the sequence is complete unless the run ends with an initiator |
| BidiContexts.BidiContext.AssignSequences | bidi/src/lib.rs:1596-1641 | every level run is in exactly one sequence, and a sequence ends only where nothing continues it |
| BidiContexts.BidiContext.CalculateSosEos | bidi/src/lib.rs:1684-1700 | sos and eos come from the first and last run, or from the base level after an unmatched initiator |
| BidiContexts.BidiContext.BuildTextChains | bidi/src/lib.rs:1650-1657 | each sequence lists the positions of its runs in order |
| BidiContexts.BidiContext.ListPositions | bidi/src/lib.rs:1652-1655 | the positions of the runs of one sequence |
| BidiContexts.BidiContext.IdentifyIsolatingRunSequences | bidi/src/lib.rs:1596-1645 | all of this together |
| TextChains.SosMeetsX10 | bidi/src/lib.rs:1684-1700 | sos and eos are those of X10, stated on the levels of the text |
| TextChains.ChainsAreDisjoint | bidi/src/lib.rs:1596-1657 | the chains are ascending and pairwise disjoint |
| TextChains.ChainRun | bidi/src/lib.rs:1596-1657 | a position of a chain lies in one run of its sequence, and a visible one has the level of the sequence |
| TextChains.VisibleInOneChain | bidi/src/lib.rs:1596-1657 | every visible character is in exactly one chain, whose level it has |
| OpenIsolates.OpenLevel | bidi/src/lib.rs:1388-1439 | until its PDI every visible character after an initiator has a higher level, or the same one if the isolate overflows |
| IsolatePairs.SplitIff | bidi/src/lib.rs:1799-1841 | two visible neighbours of one level are in one run unless the first is an isolate initiator |
| IsolatePairs.JunctionsMatchIff | bidi/src/lib.rs:1596-1641 | about the junctions of the code's own runs only: without overrides and refused isolates they are exactly at the pairs that BD9 matches, if and only if every isolate that overflows has nothing visible in it or is never closed and followed by no isolate that is |
| IsolatePairs.OverflowIsNotJoined | bidi/src/lib.rs:1596-1641 | a text in which a matched pair is no junction |
| IsolatingSequences.SplitApart | bidi/src/lib.rs:1799-1841 | an initiator and the next visible character of its level are in one chain only if that is a PDI |
| IsolatingSequences.BD13Iff | bidi/src/lib.rs:1596-1657 | without overrides and refused isolates, two visible characters are in one chain exactly when BD13, on the level runs of BD7, puts them in one sequence, if and only if every isolate that overflows shows nothing before its PDI or the separator and no initiator at the base level stands right before the separator |
| IsolatingSequences.NothingSplitIff | bidi/src/lib.rs:1799-1841 | this condition on the text says that no initiator has a visible neighbour of its level after it but a PDI |
| SplitTexts.SeparatorIsSplit | bidi/src/lib.rs:1799-1841 | an initiator before the separator: no overflow, but one sequence of BD13 in two chains |
| SplitTexts.NumberLosesContext | bidi/src/lib.rs:551-578 | an Arabic letter, an isolate that overflows and a number in 124 embeddings: the number ends as L at level 124, where W2 on the sequence of BD13 makes it an Arabic number at level 126 |
| Determinism.SequencingUnique | bidi/src/lib.rs:1510-1700 | classes, levels and base level determine the level runs and the sequences |
| Resolution.SequencesReady | bidi/src/lib.rs:1596-1700 | the chains cover the visible characters and their sos and eos are L or R |
| BidiContexts.BidiContext.ResolveCombiningMarksIn | bidi/src/lib.rs:527-536 | W1 on one chain |
| NonspacingMarks.MeetsStandardIff | bidi/src/lib.rs:526-537 | this is W1 of UAX #9 exactly on the chains where no mark follows an isolate control |
| NonspacingMarks.MarkDeparts | bidi/src/lib.rs:526-537 | a mark after a PDI becomes PDI, not ON |
| NonspacingMarks.DepartureIsHarmless | bidi/src/lib.rs:480-500 | the rules from W2 on give a paragraph the same classes after either form of W1, when no bracket character is a nonspacing mark |
| BidiContexts.BidiContext.FirstStrongBefore | bidi/src/lib.rs:555-569 | the search back finds the nearest strong class, or sos |
| BidiContexts.BidiContext.ResolveEuropeanNumbersIn | bidi/src/lib.rs:551-578 | W2 on one chain, although the loop searches a chain it has partly changed |
| BidiContexts.BidiContext.ResolveArabicLettersIn | bidi/src/lib.rs:589-595 | W3 on one chain |
| BidiContexts.BidiContext.IsPriorContext | bidi/src/lib.rs:602-620 | whether the nearest visible character before has the class |
| BidiContexts.BidiContext.IsFollowingContext | bidi/src/lib.rs:626-641 | whether the nearest visible character after has the class |
| BidiContexts.BidiContext.IsInContext | bidi/src/lib.rs:643-646 | whether both have |
| BidiContexts.BidiContext.ResolveSeparatorsIn | bidi/src/lib.rs:662-680 | W4 on one chain: a separator changes iff both visible neighbours were numbers of its kind before the rule |
| WeakTypes.W4InPlace | bidi/src/lib.rs:661-682 | changing separators on the way does not disturb the test of a later one |
| BidiContexts.BidiContext.FillBackward | bidi/src/lib.rs:707-713 | the scan back changes the terminators up to the first visible other character |
| BidiContexts.BidiContext.FillForward | bidi/src/lib.rs:714-720 | the scan forward likewise |
| WeakTypes.W5Round | bidi/src/lib.rs:703-724 | one number found: the terminators changed so far are those touched by the numbers met so far |
| BidiContexts.BidiContext.ResolveTerminatorsIn | bidi/src/lib.rs:704-723 | W5 on one chain: a terminator changes iff its block of terminators, removed characters skipped, touches a European number |
| BidiContexts.BidiContext.ResolveEsCsEtIn | bidi/src/lib.rs:736-747 | W6 on one chain |
| BidiContexts.BidiContext.ResolveEnIn | bidi/src/lib.rs:759-782 | W7 on one chain, from the right |
| BidiContexts.BidiContext.IsPriorDirection | bidi/src/lib.rs:1076-1162 | the search back finds the wanted strong direction first, EN and AN counting as R, or sos has it |
| BidiContexts.BidiContext.IsFollowingDirection | bidi/src/lib.rs:1106-1187 | the search forward likewise |
| Neutrals.N1Step | bidi/src/lib.rs:1041-1071 | one neutral, resolved from the right with later ones already changed, gets what N1 gives it on the chain as it was |
| BidiContexts.BidiContext.ResolveNeutralsByContextIn | bidi/src/lib.rs:1043-1070 | N1 on one chain |
| BidiContexts.BidiContext.ResolveNeutralsByLevelIn | bidi/src/lib.rs:1199-1205 | N2 on one chain |
| ChainRules.NeutralBlock | bidi/src/lib.rs:1041-1206 | N1 and N2 give every neutral of a block the direction both strong neighbours share, else the embedding direction |
| BidiContexts.BidiContext.ResolveIn | bidi/src/lib.rs:526-783 | each rule by its name |
| BidiContexts.BidiContext.ResolveAll | bidi/src/lib.rs:526-783 | the loop over the chains applies the rule to each chain as it was and changes nothing else |
| ChainRules.RuleClears | bidi/src/lib.rs:526-1206 | each rule makes its class vanish from the visible characters, brings no earlier one back, and leaves removed characters alone |
| ChainRules.RuleClearsAll | bidi/src/lib.rs:526-1206 | the same for the paragraph |
| Brackets.Bd16WellPaired | bidi/src/lib.rs:812-830 | bracket pairs open before they close, share no end, and are nested or disjoint |
| Brackets.BracketStack.constructor | bidi/src/lib.rs:1905-1912 | a new stack has no bracket and no pair |
| Brackets.BracketStack.Clear | bidi/src/lib.rs:1914-1917 | nor has a cleared one |
| Brackets.BracketStack.Push | bidi/src/lib.rs:1919-1928 | the bracket is added, and refused exactly when 63 are open |
| Brackets.BracketStack.SeekMatchingOpenBracket | bidi/src/lib.rs:1948-1980 | the search from the top makes the pair that BD16 makes with a list and drops what is above |
| Brackets.SortPairsSorted | bidi/src/lib.rs:840-844 | the pairs are resolved in the order of their opening brackets |
| BidiContexts.BidiContext.FindPairs | bidi/src/lib.rs:812-832 | the bounded stack finds the pairs of BD16, and stops exactly when 63 brackets are open at an opening one |
| BidiContexts.BidiContext.SetMarksAfter | bidi/src/lib.rs:927-940 | the marks after a bracket get its class |
| BidiContexts.BidiContext.SetBracketPairBc | bidi/src/lib.rs:877-941 | a pair and the marks after its brackets get the class, nothing else changes |
| BidiContexts.BidiContext.ScanPair | bidi/src/lib.rs:963-987 | the scan between the brackets finds the embedding direction, and if not tells whether the opposite one is there |
| BidiContexts.BidiContext.ResolveOnePair | bidi/src/lib.rs:952-1025 | N0 b to d: the embedding direction if found inside, else the opposite one if it is found inside and before, else the embedding direction, else nothing |
| BidiContexts.BidiContext.ResolvePairsIn | bidi/src/lib.rs:847-853 | the pairs of a chain one after the other |
| BidiContexts.BidiContext.ResolveBracketsIn | bidi/src/lib.rs:811-854 | N0 on one chain |
| BidiContexts.BidiContext.ResolveBracketChains | bidi/src/lib.rs:804-855 | N0 on the chains up to the first that overflows, which and all after it stay as they are |
| BidiContexts.BidiContext.ResolvePairedBrackets | bidi/src/lib.rs:804-855 | N0; nothing happens without the characters of the paragraph |
| BracketOverflow.OverflowHarmlessIff | bidi/src/lib.rs:804-855 | the result is that of N0 on each chain that does not overflow, if and only if every chain after the first that does overflows too or is not changed by N0 |
| BracketOverflow.LaterPairUnresolved | bidi/src/lib.rs:820-824 | a paragraph of 64 opening brackets and an embedding with a bracket pair in it: the pair stays neutral and its closing bracket ends as L at level 2, where N0 makes it R |
| OverflowingChains.StandardOverflowIff | bidi/src/lib.rs:820-824 | the result is that of BD16 with the pairs before an overflow resolved, if and only if these, or all pairs of a chain without overflow, change nothing on the first chain that overflows and on all after it |
| OverflowingChains.EarlierPairUnresolved | bidi/src/lib.rs:820-824 | a chain of a pair and 64 opening brackets: the closing bracket of the pair is R by BD16, and L after N1 of the code |
| BracketRules.BracketsClearAll | bidi/src/lib.rs:804-941 | N0 changes visible characters only, to L or R |
| Lines.ImplicitParity | bidi/src/lib.rs:1209-1243 | a resolved level is odd exactly when the class is R and never exceeds 126 |
| Lines.ImplicitIsLeast | bidi/src/lib.rs:1209-1243 | it is the least level of its parity from the embedding level on, for numbers above it |
| BidiContexts.BidiContext.ResolveImplicitLevels | bidi/src/lib.rs:1209-1243 | I1 and I2 |
| BidiContexts.BidiContext.ResolveWeakTypes | bidi/src/lib.rs:480-492 | W1 to W7 in order |
| BidiContexts.BidiContext.ResolveTypes | bidi/src/lib.rs:480-500 | W1 to N2 in order |
| BidiContexts.BidiContext.IdentifySequences | bidi/src/lib.rs:476-477 | X10 |
| BidiContexts.BidiContext.SetBaseLevel | bidi/src/lib.rs:460-469 | the hint, or P2 and P3, decide the base level |
| BidiContexts.BidiContext.ResolveSequences | bidi/src/lib.rs:476-503 | X10 to I2 in order, from what X9 has left |
| BidiContexts.BidiContext.Resolve | bidi/src/lib.rs:455-504 | all rules in order; afterwards visible characters have class L, R, EN or AN and a level from the base level to 126 that is odd exactly for R, and removed ones their class and no level |
| BidiContexts.BidiContext.ResolveParagraph | bidi/src/lib.rs:435-447 | the same from characters and the class table |
| BidiContexts.BidiContext.SetCharTypes | bidi/src/lib.rs:449-453 | the same from classes, without brackets |
| Resolution.ImplicitResolves | bidi/src/lib.rs:1209-1243 | why the final classes and levels are as `Resolve` says |
| Determinism.ResolvesUnique | bidi/src/lib.rs:455-504 | text, characters, bracket table and base level determine the final classes, levels and sequences |
| RemovedCharacters.RuleSkips | bidi/src/lib.rs:526-1206 | W1 to W7, N1 and N2 give a visible character the class they give it in the chain without removed characters, as section 5.2 of UAX #9 asks |
| RemovedBrackets.BracketsSkip | bidi/src/lib.rs:804-1025 | so does N0: the same brackets pair in the same order, take the same direction and pass it to the same marks |
| ReplacedContent.MatchMoved | bidi/src/lib.rs:1846-1872 | BD9 matches the same characters outside an isolate, whatever stands in it |
| ReplacedContent.SequenceMoved | bidi/src/lib.rs:1596-1641 | BD13 puts the same characters outside in one sequence, and none from inside |
| IsolatedChains.ChainMoved | bidi/src/lib.rs:1596-1657 | the chain of a character outside shows the same characters in both texts |
| IsolatedChains.SidesMoved | bidi/src/lib.rs:1684-1700 | and has the same sos, eos and level |
| IsolatedContent.ContentIsIsolated | bidi/src/lib.rs:455-504 | replacing the content of an isolate changes no final class and no final level outside it, X1 to I2 together, in texts without overrides, refused isolates or bracket overflow whose chains are the sequences of BD13 |
| Lines.ResetContiguousWhitespaceBefore | bidi/src/lib.rs:1267-1285 | the scan back resets whitespace and isolate controls up to the first visible other character |
| Lines.ResetNext | bidi/src/lib.rs:1289-1309 | one step of the scan forward resets what a separator met so far asks for |
| Lines.ResetEnd | bidi/src/lib.rs:1311-1318 | with the scan from the line end, exactly what L1 names is reset |
| BidiContexts.BidiContext.ResetWhitespaceLevels | bidi/src/lib.rs:1266-1319 | L1: the line gets its levels with the base level put in iff the character is a separator, or whitespace or an isolate control with only such and removed characters before the next separator or the line end |
| Lines.RunIter.Next | bidi/src/lib.rs:139-167 | the next maximal stretch of one visible level, with nothing removed in it |
| Lines.CollectRuns | bidi/src/lib.rs:136-168 | the runs are ascending, disjoint, have one level, hold no removed character and cover exactly the visible ones |
| BidiContexts.BidiContext.Runs | bidi/src/lib.rs:215-221 | the runs of the paragraph |
| BidiContexts.BidiContext.LineRuns | bidi/src/lib.rs:226-234 | the runs of a line after L1, at paragraph positions |
| Reorder.LevelBounds | bidi/src/lib.rs:341-362 | the highest level and the lowest odd one, or the sentinel |
| Reorder.ReversePass | bidi/src/lib.rs:381-428 | one pass with deleted entries and the sticky flag reverses every maximal stretch, removed characters inside carried along |
| Reorder.PassPlaces | bidi/src/lib.rs:381-428 | a pass swaps the order of two characters exactly when nothing visible between them is below its level |
| VisualOrder.VisualLevels | bidi/src/lib.rs:340-432 | the result lists each visible position once, in the order all passes give |
| VisualOrder.ReverseLevels | bidi/src/lib.rs:340-432 | it is rule L2 on the line without removed characters, and orders two characters by the parity of the least level between them, both if and only if the sentinel is not hit |
| VisualOrder.ClosedForm | bidi/src/lib.rs:343-361 | the closed form by the least level holds iff the sentinel is not hit |
| VisualOrder.L2Parity | bidi/src/lib.rs:335-339 | rule L2 as section 3.4 of UAX #9 has it obeys the closed form, for all levels |
| VisualOrder.OrderUnique | bidi/src/lib.rs:340-432 | two lists of the visible positions in the same order are equal |
| VisualOrder.PassesAreRuleL2 | bidi/src/lib.rs:340-432 | the passes are rule L2 iff the sentinel is not hit |
| WitnessTexts.SentinelReached | bidi/src/lib.rs:344 | two Arabic numbers in 124 embeddings resolve without panic and hit the sentinel |
| VisualRuns.SpanLen | bidi/src/lib.rs:186-194 | the length of the maximal stretch of one level |
| VisualRuns.RunsOfLine | bidi/src/lib.rs:236-271 | no panic iff every index is inside the line; the runs then cut the visual order at every change of level, each character at its own level, iff every visible character finds its level where the code looks; none is left if no one finds a level |
| VisualRuns.RunsRightIff | bidi/src/lib.rs:243-266 | the same for the levels as the code reads and filters them, for any start of the line |
| WitnessTexts.CharacterIsLost | bidi/src/lib.rs:243-247 | a line of one visible letter for which nothing panics and no run is returned |
| WitnessTexts.LineRunsPanic | bidi/src/lib.rs:244 | a line of one letter that panics |
| VisualRuns.SameLevelNeighbours | bidi/src/lib.rs:253-266 | visual neighbours of one level are logical neighbours, ascending iff the level is even |
| VisualRuns.RunsAreLogicalStretches | bidi/src/lib.rs:253-266 | each run is logically consecutive, ascending or descending by its level, and its range holds no visible position of another run |
| VisualRuns.StretchesIff | bidi/src/lib.rs:253-266 | every run is such a stretch if and only if the sentinel is not hit |
| Resolution.RunsMeetIff | bidi/src/lib.rs:236-271 | only the runs cut from the one visual order have the order and the levels asked for |
| BidiContexts.BidiContext.ReorderLine | bidi/src/lib.rs:277-284 | L1, then L2, correct iff the sentinel is not hit |
| BidiContexts.BidiContext.ReorderedRuns | bidi/src/lib.rs:236-271 | for every line of a resolved paragraph: the panic, and the right runs, each iff the levels of the line say so; on a line that starts the paragraph the runs are right, and are logical stretches in the order of L2 iff the sentinel is not hit |
| KeyTrie.TrieRefinesMap | termwiz/src/keymap.rs:20-38 | for every history of insertions the trie holds the last value of each key, and a node exactly for each prefix of a key |
| KeyTrie.LookupNodeMeets | termwiz/src/keymap.rs:40-103 | a node answers with the longest stored prefix below it, and when it is ambiguous |
| KeyTrie.LookupRefinesMap | termwiz/src/keymap.rs:40-103 | lookup is what the plain map determines: no match iff no key has the first byte, else the longest stored prefix, more data iff there is none, ambiguous iff more may come and a longer key agrees one byte further; the panic only for the empty key on the empty map |
| KeyTrie.LookupUnique | termwiz/src/keymap.rs:193-200 | these conditions leave one answer |
| KeyTrie.DeadEnd | termwiz/src/keymap.rs:92-100 | an input that starts no stored key still gets NeedData |
| KeyMaps.Node.constructor | termwiz/src/keymap.rs:12-18 | a new node is a leaf without value |
| KeyMaps.Node.Insert | termwiz/src/keymap.rs:20-38 | insertion in place is insertion into the trie; only owned nodes change |
| KeyMaps.Node.AddLeaf | termwiz/src/keymap.rs:33-34 | a new child goes where the binary search says |
| KeyMaps.Node.InsertInto | termwiz/src/keymap.rs:26-37 | insertion goes on in one child, the others stay as they are |
| KeyMaps.Node.Lookup | termwiz/src/keymap.rs:40-103 | the recursion on the nodes is the one on the trie |
| KeyMaps.KeyMap.constructor | termwiz/src/keymap.rs:156-158 | an empty map |
| KeyMaps.KeyMap.Insert | termwiz/src/keymap.rs:161-163 | the history grows by the insertion |
| KeyMaps.KeyMap.Lookup | termwiz/src/keymap.rs:193-200 | the answer is the one the history determines |
| Quoting.AppendQuoted | pty/src/cmdbuilder.rs:718-761 | the argument is appended bare, or escaped between quotation marks |
| Quoting.AppendEscaped | pty/src/cmdbuilder.rs:733-759 | the nested loops escape |
| Quoting.Cmdline | pty/src/cmdbuilder.rs:684-714 | program and arguments after spaces, or an error exactly when an argument has a NUL |
| Quoting.ParseEscaped | pty/src/cmdbuilder.rs:731-760 | reading undoes the escaping, whatever mix of backslashes and marks |
| Quoting.ParseQuoted | pty/src/cmdbuilder.rs:718-761 | an argument reads back and ends where it was written |
| Quoting.RoundTrip | pty/src/cmdbuilder.rs:702-710 | every list of arguments reads back exactly, with and without the rule for doubled marks |
| Quoting.LineRoundTrip | pty/src/cmdbuilder.rs:684-714 | the whole NUL-terminated line brings back program name and arguments iff the name has no quotation mark and no NUL and is not quoted with a backslash at its end; the arguments come back for every name without quotation mark and NUL |
| Quoting.QuoteInProgramName | pty/src/cmdbuilder.rs:695 | a program name with a quotation mark loses an argument |
| ProcessTrees.TreeWalk.constructor | procinfo/src/lib.rs:206-207 | the root is visited |
| ProcessTrees.TreeWalk.Build | procinfo/src/lib.rs:159-204 | the walk ends on every graph; what it adds to the visited set is what it puts into the tree, once each, with real edges, and every kid of an expanded process is visited |
| ProcessTrees.BuildTree | procinfo/src/lib.rs:153-209 | each pid at most once and real edges always; the tree holds exactly the processes whose parent chain comes to the root in at most 128 steps, each at that depth, iff no pid has two such chains of different length |
| ProcessTrees.OccursHasChain | procinfo/src/lib.rs:153-209 | in any snapshot a process stands at the end of a real parent chain of its depth |
| ProcessTrees.ExactIffUniqueDepths | procinfo/src/lib.rs:153-209 | this condition is exact for every snapshot |
| ProcessTrees.DistinctIsUnique | procinfo/src/lib.rs:153-209 | distinct pids have chains of one length |
| ProcessTrees.OccursOnce | procinfo/src/lib.rs:188-200 | a pid stands at one depth only |
| ProcessTrees.DuplicatePidsBreakExactness | procinfo/src/lib.rs:188-200 | with a pid listed under two parents no tree shows both chains |

## Left out

- Rule L3 (`reorder_non_spacing_marks`): the model is that of an object with reordering of marks switched off.
- The generated tables `bidi_class.rs` and `bidi_brackets.rs`: `ResolveParagraph` takes both as functions.
- Conformance of isolating run sequences to BD13 in texts with overrides, where the code tests overridden classes, or with refused isolates: there only the partition and the links are proved.
- `ContentIsIsolated`: only for texts in which no isolate with visible content overflows (such an isolate does not isolate by UAX #9 either), no initiator is cut off from the separator and no bracket stack overflows, which ends N0 for later chains wherever they stand; that these conditions are also necessary is not proved.
- The maximal length of a Rust `Vec`: `ReorderLine` and `ReorderedRuns` ask for fewer characters than the marker `usize::MAX`; a line range must lie inside the paragraph, where the code panics otherwise.
- `BidiContext.ResolveAll`: the loop over the sequences, which the source repeats in nine methods, is written once.
- `IsPriorDirection` and `IsFollowingDirection`: the source has one copy of each for L and one for R.
- `ProcessTrees.BuildTree`: children are a list in the order of insertion, not a hash map; as each pid occurs once, no insertion replaces another.
- The standard library's binary search and sort stand for what they find: the position among ascending labels, and the pairs in the order of their opening positions.
- Searching the path for the program, environment blocks and everything else around the command line; snapshots of the platforms and what `make_node` reads.
- Logging, `dump_state`, floating point code, the other crates.
