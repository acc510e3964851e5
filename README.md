# Merchant's guide to the galaxy: the input parser in Dafny

This project models `Acme\InputParser` (`app/InputParser.php`). The class reads lines one at
a time. A line without a trailing `?` is an instruction:

- `glob is I` assigns a base Roman letter to an alien unit word.
- `glob glob Silver is 34 Credits` fixes the price of one unit of a metal.

A line ending in `?` is a question:

- `how much is glob prok?` asks what a sequence of units is worth as a number.
- `how many Credits is glob prok Silver?` asks what that many units of a metal cost.

The first line that cannot be understood ends the whole run with a fixed message.

The project has these modules:

- `Wrappers`: `Option` and `Result`.
- `Text`: models the PHP string functions the class relies on: `strpos`, `explode`, `trim`
  and `strtolower`.
- `Numerals`: the 13-entry table of Roman numerals, and the single left-to-right pass that
  `convertRomansToInteger` makes over it.
- `Sentences`: how a line is classified and split at `" is "`, the `/^(\d+) credits$/i`
  match, and how a metal's name is split from its units.
- `Semantics`: the meaning of one line (`Step`) and of a run of lines (`Run`), as pure
  functions over the two tables the class keeps.
- `Parser`: the class `InputParser`, with the fields `assignments`, `metalValues`, `line`,
  `leftSide` and `rightSide`. Its methods are the constructor, `Process`, `ProcessLine`
  (one turn of the loop in `process`), `ProcessInstruction`, `AnswerQuestion`,
  `SplitSentence`, `AssignNewUnit`, `AssignNewMetal`, `ConvertUnitsToInteger`,
  `ConvertMetalToCredits` and `ConvertRomansToInteger`. Each is proved to follow
  `Semantics`. The class adds members that PHP does not have:
  - `Scan`: the nested loops of `convertRomansToInteger`, over any table;
  - `ApplyInstruction`: the branches of `processInstruction` after the split;
  - `Tables`: the two tables as one `State` value;
  - `Applied`: a ghost predicate relating the tables and the error to an instruction's result.

  The PHP methods that only test or compute a value are functions and predicates of the
  other modules, not methods of the class:
  - `isQuestion` is `Sentences.IsQuestion`;
  - `isValidStructure` is `Sentences.IsValidStructure`;
  - `isUnitAssignment` is `Sentences.IsUnitAssignment`;
  - `isMetalAssignment` is `Sentences.MetalCredits`;
  - `separateMetalFromUnits` is `Sentences.SeparateMetalFromUnits`;
  - `isConvertingUnitsToInteger` is `Sentences.AsksHowMuch`;
  - `isConvertingMetalToCredits` is `Sentences.AsksHowMany`;
  - `getRomansToNumbersArray` is `Numerals.Table`.

  The `input` field, `getInput` and `getLine` are not modelled (see "Left out").
- `Scenarios`: what whole lines of each shape do, for any tables, when each side is
  already what the split returns. The left side is trimmed of whitespace, and no `" is "`
  starts in it. The right side is not empty, has no ' ' or '?' at either end, and holds no
  `" is "` at all. The one-word lemmas take a unit with no whitespace or '?' anywhere in it.
- `ParserTests`: the four cases of `tests/InputParserTest.php`, stated as runs of the model.

## Model

| member | source | states |
|---|---|---|
| Numerals.TableIsSortedMerge | app/InputParser.php:12-32 | the conversion table has 13 entries, holds exactly the base and the extra numerals, and is strictly descending by value |
| Numerals.ReverseSortIsTable | app/InputParser.php:336-343 | any strictly descending arrangement of the merged base and extra numerals is the table: what `arsort` returns is unique |
| Numerals.SortedTableIsUnique | app/InputParser.php:336-343 | two strictly descending tables with the same entries are equal |
| Numerals.PassConsumesPrefix | app/InputParser.php:316-329 | the pass over the table consumes a prefix of the numeral string: the leftover is a suffix of the input, and each consumed letter adds at most 1000 |
| Numerals.Decode | app/InputParser.php:316-329 | the decoded value is at most 1000 for each letter of the input |
| Numerals.Leftover | app/InputParser.php:316-329 | what the pass leaves unread is a suffix of the input |
| Numerals.PassEmpty | app/InputParser.php:316-329 | the empty string is worth 0 from any position in the table, and nothing is left over |
| Numerals.DecodeEmpty | app/InputParser.php:316-329 | the empty numeral decodes to 0 with nothing left over |
| Numerals.PassTake | app/InputParser.php:322-325 | while the current key is a prefix, the pass adds its value and goes on with the rest, at the same key |
| Numerals.PassSkip | app/InputParser.php:321-322 | a key whose first letter differs from the input's first letter is skipped |
| Numerals.PassOrdered | app/InputParser.php:316-329 | a string spelled from table keys in table order is read back completely, as the sum of those keys |
| Numerals.DecodeOrdered | app/InputParser.php:316-329 | every numeral written with non-increasing keys decodes to the sum of its keys, with nothing left over |
| Numerals.DecodeBase | app/InputParser.php:12-20 | each single base letter decodes to its own value |
| Numerals.SmallExamples | app/InputParser.php:316-329 | "II" is 2 and "IV" is 4 |
| Numerals.PermissiveExample | app/InputParser.php:316-329 | "IIII" is read as 4: repeats are not limited |
| Numerals.OnePassExample | app/InputParser.php:321-326 | "VX" is read as 5 and its "X" is silently left over, because the pass never goes back up the table |
| Text.FindFrom | app/InputParser.php:186 | the position found is an occurrence of the pattern, with none earlier, and no position is found only when the pattern does not occur |
| Text.Explode | app/InputParser.php:170 | explode yields at least one piece, no piece contains the separator, and the pieces joined by the separator give back the input |
| Text.ExplodeJoin | app/InputParser.php:243 | splitting words joined by a character they do not contain gives back the words |
| Text.ExplodeHead | app/InputParser.php:170 | the first piece of explode is the text before the first separator; the other pieces come from the text after it |
| Text.Trim | app/InputParser.php:172-173 | the trimmed string neither starts nor ends with a character of the set, and is the input with such characters stripped from both ends |
| Text.TrimNoop | app/InputParser.php:172-173 | text whose ends are not in the set is left as it is |
| Text.TrimDropsLast | app/InputParser.php:173 | trimming a trailing character of the set (the question mark) is trimming the rest |
| Text.Lower | app/InputParser.php:245 | strtolower keeps the length and lower-cases each ASCII letter in place |
| Sentences.SplitSentenceSides | app/InputParser.php:167-177 | the left side is the text before the first " is ", trimmed of whitespace; the right side is the text after it, up to any second " is ", trimmed of spaces and '?' |
| Sentences.SplitAtFirst | app/InputParser.php:167-177 | a line left + " is " + right, where no " is " starts in left followed by a space and none occurs in right, has a valid structure, its first " is " is the one after left, and it splits back into those two sides, trimmed |
| Sentences.NoSNoSeparator | app/InputParser.php:184-187 | a line without the letter 's' has no " is " and so is invalid |
| Sentences.UnitAssignmentLetters | app/InputParser.php:194-197 | a right side is a unit assignment exactly when it is one of the letters M, D, C, L, X, V, I |
| Sentences.MetalCreditsPhrase | app/InputParser.php:212-215 | a recognised right side is digits, a space and "credits" in any case, with at most one trailing newline, and the number found is the digits' value |
| Sentences.CreditsPhraseMatches | app/InputParser.php:222-224 | every right side of that form is recognised, and yields its digits' value |
| Sentences.SeparateMetalFromUnitsSplits | app/InputParser.php:241-248 | the units are the space-separated words before the last word, and the metal is the last word, trimmed and lower-cased |
| Semantics.Romans | app/InputParser.php:267-276 | the letters are found exactly when every unit is assigned; otherwise the error names the first unassigned unit; with single-letter assignments there is one letter per unit, in order |
| Semantics.RatioSpreads | app/InputParser.php:230 | the price per unit times the number of units is the credits; no units gives price 0 |
| Semantics.CreditsUndoRatio | app/InputParser.php:230 | pricing the declared number of units at the recorded price gives back the declared credits |
| Semantics.InstructionOutcome | app/InputParser.php:128-139 | an instruction fails only as unrecognised or on an unknown unit, and is unrecognised exactly when the right side is neither a letter nor a credits phrase; a unit declaration sets one assignment; a metal declaration sets one price; valid tables stay valid |
| Semantics.UnitInstruction | app/InputParser.php:202-205 | a unit declaration is accepted and changes the assignments only, at the left side |
| Semantics.MetalInstruction | app/InputParser.php:220-233 | a metal declaration records credits divided by the value of the units for the metal, or fails with the unit error |
| Semantics.UnitsQuestion | app/InputParser.php:151-154 | a "how much" answer is about the right side, and it fails only on an unknown unit |
| Semantics.CreditsQuestion | app/InputParser.php:297-308 | a "how many" answer is about the right side; it fails with UnknownMetal exactly when the metal has no price, and otherwise only on an unknown unit |
| Semantics.Question | app/InputParser.php:147-160 | a question is unanswerable exactly when the left side holds neither "how much" nor "how many"; "how much" takes precedence; an answer is about the right side |
| Semantics.HowMuchQuestion | app/InputParser.php:151-154 | a "how much" question answers the decoded value of the right side's units, or fails on the unknown unit |
| Semantics.HowManyQuestion | app/InputParser.php:297-308 | a "how many" question checks the metal first, then prices its units |
| Semantics.Step | app/InputParser.php:80-86 | a line without " is " fails first; a question or a failure leaves the tables alone; only questions are answered and only instructions accepted; valid tables stay valid |
| Semantics.StepQuestion | app/InputParser.php:80-83 | a question line with " is " answers the question on its two sides, or fails with its error |
| Semantics.StepInstruction | app/InputParser.php:84-86 | an instruction line with " is " takes the tables the instruction yields, or fails with its error and keeps the tables |
| Semantics.Run | app/InputParser.php:76-91 | a run prints at most one answer per line |
| Semantics.RunKeepsValid | app/InputParser.php:76-91 | starting from valid tables, every run ends with valid tables |
| Semantics.RunAppend | app/InputParser.php:79-87 | running two inputs one after the other is running the first, then (unless it stopped) the second from where the first left off, with the answers concatenated |
| Semantics.RunNext | app/InputParser.php:79-87 | the run from line i is that line's step followed by the run from line i + 1, unless the step failed |
| Semantics.RunLoopStep | app/InputParser.php:79-90 | one turn of the loop keeps "all answers = answers so far + answers of the rest"; a failing line ends the run with the answers so far |
| Semantics.RunAccepted | app/InputParser.php:84-86 | an accepted line prints nothing and the run goes on from the new tables |
| Semantics.RunAnswered | app/InputParser.php:80-83 | an answered line prints its answer before those of the rest |
| Semantics.RunFailed | app/InputParser.php:88-90 | a failing line ends the run with no further answers and the tables as they were |
| Semantics.RunOneQuestion | app/InputParser.php:80-83 | a run of one question prints its answer or stops, and leaves the tables alone |
| Semantics.RepeatedQuestion | app/InputParser.php:76-91 | asking the same question twice either stops or prints the same answer twice, with the tables untouched |
| Scenarios.QuestionLine | app/InputParser.php:147-177 | "<left> is <subject>?" is answered from the trimmed left side and the subject |
| Scenarios.InstructionLine | app/InputParser.php:128-139 | "<left> is <right>" applies the instruction on those two sides |
| Scenarios.HowMuchOneWord | app/InputParser.php:151-154 | a "how much" question about one word answers the decoded letter assigned to it, or fails naming the word |
| Scenarios.HowMuchWord | app/InputParser.php:147-154 | "how much is <unit>?" answers the decoded letter of the unit, or fails naming the unit |
| Scenarios.UnitRoundTrip | app/InputParser.php:194-205 | declaring "<unit> is <letter>" records the letter, and then "how much is <unit>?" answers the letter's value |
| Scenarios.MetalDeclarationLine | app/InputParser.php:220-233 | "<subject> is <digits> Credits" records credits divided by the units' value for the metal, or fails on the unknown unit |
| Scenarios.HowManyLine | app/InputParser.php:297-308 | "how many Credits is <subject>?" fails on an unpriced metal, then on an unknown unit, and otherwise prices the units at the metal's value |
| Scenarios.MetalRoundTrip | app/InputParser.php:220-233 | after "<subject> is <digits> Credits" with units worth more than 0, "how many Credits is <subject>?" answers exactly the declared credits |
| ParserTests.AssignmentForI | tests/InputParserTest.php:11-18 | after "glob is I", "how much is glob?" answers glob is 1 |
| ParserTests.AssignmentForIAndV | tests/InputParserTest.php:20-28 | after glob is I and prok is V, "how much is glob prok?" answers 4 |
| ParserTests.AssignmentForMetalSilver | tests/InputParserTest.php:30-39 | after glob, prok and "glob glob Silver is 34 Credits", "how many Credits is glob prok Silver?" answers 68 credits |
| ParserTests.WrongCommand | tests/InputParserTest.php:41-48 | the woodchuck line has no " is ", is rejected, and the run stops with nothing printed |
| Parser.InputParser.constructor | app/InputParser.php:68-71 | a new parser starts with no units and no metals |
| Parser.InputParser.SplitSentence | app/InputParser.php:167-177 | without " is " it fails with MissingIs and keeps both sides; otherwise it sets the two sides of the line |
| Parser.InputParser.AssignNewUnit | app/InputParser.php:202-205 | the left side now stands for the right side, and nothing else changes |
| Parser.InputParser.ConvertRomansToInteger | app/InputParser.php:316-329 | the loop computes the decoded value of the numeral |
| Parser.InputParser.Scan | app/InputParser.php:321-326 | the nested loops add up exactly what the pass over a decodable table adds up |
| Parser.InputParser.ConvertUnitsToInteger | app/InputParser.php:267-279 | the loop returns the value of the units' letters, or the first unknown unit |
| Parser.InputParser.AssignNewMetal | app/InputParser.php:220-233 | the metal's price becomes credits divided by the units' value (0 for value 0); an unknown unit fails and leaves the prices alone |
| Parser.InputParser.ConvertMetalToCredits | app/InputParser.php:297-308 | the result is the "how many" answer for the right side |
| Parser.InputParser.AnswerQuestion | app/InputParser.php:147-160 | fails with MissingIs without " is "; otherwise splits the line and returns the answer to the question on its sides |
| Parser.InputParser.ProcessInstruction | app/InputParser.php:128-139 | fails with MissingIs without " is "; otherwise splits the line and leaves the tables as the instruction yields, or unchanged with its error |
| Parser.InputParser.ApplyInstruction | app/InputParser.php:132-138 | the branches after the split leave the tables and the error the instruction calls for |
| Parser.InputParser.ProcessLine | app/InputParser.php:80-86 | handling one line yields the tables and the outcome of the line's step |
| Parser.InputParser.Process | app/InputParser.php:76-91 | the loop over the lines ends with the tables, the answers and the stop flag of the run |

## Left out

- Reading the input (`getInput`, `getLine`, `InputReaderContract`, `app/FileReader.php`,
  `index.php`) is left out. `Process` takes the lines as a sequence, and `ProcessLine`
  stores the current line in the `line` field.
- The reader trims every line before the parser sees it (`app/FileReader.php:53` and
  `app/FileReader.php:70`). `Process` takes lines that are already trimmed and does not trim
  them again. A line given to it with surrounding whitespace is handled as it is.
- Printing is left out. An answer is an `Answer` value, not the string
  `"<subject> is <n>"` or `"<subject> is <x> Credits"`. The fixed message after a rejected
  line is the `stopped` flag of a run.
- PHP numbers are not modelled. Credits are unbounded naturals, so there is no integer
  overflow and no float conversion of a long digit string. Prices are exact reals, so there
  is no floating-point rounding and no float-to-string formatting of `68` or `17`.
- The regular expression engine is not modelled. `/^(\d+) credits$/i` is written out as
  the predicate `CreditsPhrase` with its `$` newline rule. Case folding is ASCII only.
- `strtolower` is modelled for ASCII only.
- `$assignments` starts as `null` in PHP and as an empty map here. The two behave the same
  under `isset` and under assignment.
- The tests call `processCommand`, which `InputParser` does not define. `ParserTests`
  expresses each test as a run of the same lines instead. The exception the fourth test
  expects is the run stopping on `MissingIs`.
- ParserTests.WrongCommand: the woodchuck line is written as a concatenation of four
  literal pieces rather than one literal. It is the same line.
- The `Parser` methods always use the 13-entry table. The fields `romansToNumbers`,
  `extraRomansToNumbers` and `metalAssignmentPattern` are constants here, since nothing
  assigns them.
- The explode in `splitSentence` has no limit, so any text after a second `" is "` is
  dropped from the right side. The model follows the code in this.
- `convertRomansToInteger` makes one pass down the table and ignores what it cannot read.
  For example, "VX" is read as 5 and "IIII" as 4. The model follows the code and does not
  impose standard Roman-numeral rules.
