# Wordle solver, modelled in Dafny

A model of the WordleSolver command-line tool. The tool lists the dictionary
words that can still be the answer to a Wordle-style puzzle. The puzzle is
described by a word length, letters known to be absent (`--exclude`), letters
known to be present somewhere (`--include`), and letters known at fixed
positions (`--known`, tokens such as `1m` for "position 1 is m").

The program is one stateless pipeline, and the model follows it:

- `Parsing` turns the three comma-separated option values into constraints.
  Each value is ASCII-lowercased and split at commas. A one-letter exclude
  token removes that letter from the valid letters. The valid letters are
  `'a'..'z'` minus the excluded ones, in ascending order. A one-letter include
  token makes its letter required, unless that letter is excluded. A
  digit-plus-letter known token maps position `digit - 1` to its letter. The
  known list is ignored when it has more tokens than the word length, and a
  position named twice is an error.
- `Generator` is the depth-first candidate search `GetPossibleWords`. It
  extends a prefix one position at a time. A known position gets its known
  letter. Any other position branches over the valid letters in list order.
  A full-length string is kept when it is a dictionary word.
- `RequiredFilter` keeps the words that contain every required letter, in
  their original order. The `FilterByLoop` method follows the source's loop
  with its early exit.
- `Solver` ties these together. An empty dictionary is an error. Otherwise
  the solver generates and then filters. `Run` states the whole program's
  result directly in terms of the option values: exactly the dictionary words
  that answer the puzzle, in strictly ascending ordinal order.
- `Lex` holds the ordinal string order and the facts about sorted lists. One
  of those facts is that a strictly sorted list is determined by its members.
- `Scenarios` proves concrete runs from the general contracts.

The dictionary is a `set<string>` argument. The output is the returned
list. Errors are `Result` values (module `Outcome`), not exceptions.

Behaviours of the code that the model keeps, though a reader might expect
otherwise:

- Dictionary lines are stored as read. They are not lowercased.
- A repeated known position throws in `Dictionary.Add`. The model makes this a
  `DuplicatePosition` failure, not last-write-wins. The failure happens during
  option parsing, before the dictionary is looked at. It happens even when
  both tokens give the same letter.
- A known token whose digit is `0` or is larger than the word length is not
  skipped. It is recorded, at position `-1` or at a position past the end. It
  is never consulted (`GenerateIgnoresOtherKeys`).
- The known-token count check counts every comma-separated token, malformed
  and empty ones included.
- The pattern `^\d[a-z]$` ends in `$`. In .NET, `$` also matches just before
  a final line feed, so the model also accepts a known token with a trailing
  `'\n'`.
- A word length of zero or less makes the search test only the empty word.
- The output comes out in generation order. Because the valid letters are
  built in ascending order, that order is ascending ordinal order.

## Model

| member | source | states |
|---|---|---|
| Generator.Generate | WordleSolver.cs:6-54 | every word returned is a dictionary word of the target length (or the prefix itself once it is that long). It extends the prefix. At each position still to be filled it holds the known letter when the position is known, whether or not that letter is valid, and a valid letter otherwise |
| Generator.Branch | WordleSolver.cs:29-42 | every word found by branching over a letter list is a dictionary word of the target length that extends the prefix. Its letter at the branching position is one of the letters tried, and the later positions obey the constraints |
| Generator.GenerateComplete | WordleSolver.cs:13-51 | every dictionary word that extends the prefix to the target length and obeys the constraints at the positions still to be filled is in the output |
| Generator.BranchComplete | WordleSolver.cs:31-41 | such a word whose next letter is in the branch's letter list is found by that branch |
| Generator.GenerateFindsExactly | WordleSolver.cs:6-54 | membership in the output holds if and only if the word is in the dictionary, has the target length, extends the prefix and obeys the constraints (soundness and completeness together) |
| Generator.GenerateSorted | WordleSolver.cs:13-42 | when the valid letters are strictly ascending, the output is strictly sorted in ordinal order. A strictly sorted list has no duplicates (`Lex.StrictlySortedDistinct`) |
| Generator.BranchSorted | WordleSolver.cs:31-41 | branching over a strictly ascending letter list gives a strictly sorted concatenation, because each branch's words all sort before the next branch's |
| Generator.GenerateIgnoresOtherKeys | WordleSolver.cs:18-28 | two known-position maps that agree on the positions still to be filled give the same output. Negative keys and keys at or past the length are never consulted |
| Generator.BranchIgnoresOtherKeys | WordleSolver.cs:31-41 | the same independence for each branch |
| RequiredFilter.FilterRequired | WordleSolver.cs:82-103 | the filtered list holds exactly the input words that contain every required letter. Each kept word appears as often as in the input. The list is a subsequence of the input, and it stays strictly sorted when the input was |
| RequiredFilter.KeepContainingAll | WordleSolver.cs:86-101 | the kept words are no more than the input words, and each kept word contains every required letter |
| RequiredFilter.KeepMembers | WordleSolver.cs:86-101 | a word is kept if and only if it was an input word containing every required letter |
| RequiredFilter.KeepCounts | WordleSolver.cs:86-101 | a kept word occurs as often as in the input, and a dropped word does not occur |
| RequiredFilter.KeepIsSubsequence | WordleSolver.cs:86-101 | the kept words keep their original relative order |
| RequiredFilter.KeepSorted | WordleSolver.cs:86-101 | filtering a strictly sorted list leaves it strictly sorted |
| RequiredFilter.KeepWithNothingRequired | WordleSolver.cs:83 | filtering by no letters keeps every word, so skipping the filter for an empty list changes nothing |
| RequiredFilter.KeepAppend | WordleSolver.cs:97-100 | filtering a list with one more word at the end adds that word to the result exactly when it contains every required letter |
| RequiredFilter.FilterByLoop | WordleSolver.cs:83-103 | the loop that tests the required letters one by one, in any order, and stops at the first missing one computes the same list as the filter over the set of those letters |
| Parsing.LowerChar | WordleSolver.cs:180 | case folding gives a small ASCII letter exactly for ASCII letters, never a capital, and leaves every other character alone. Each capital becomes its own small letter, so 'A' becomes 'a' |
| Parsing.AsciiLower | WordleSolver.cs:180 | the folded option has the same length, holds no ASCII capital, has its commas exactly where the option has them, and equals the option when the option has no capital |
| Parsing.Split | WordleSolver.cs:180 | splitting at commas gives one more token than there are commas, no token contains a comma, and joining the tokens with commas gives back the input |
| Parsing.SplitJoin | WordleSolver.cs:180 | splitting a comma-joined list of comma-free tokens gives back those tokens |
| Parsing.Tokens | WordleSolver.cs:180 | an option's tokens (the same fold and split serve the include option at line 231 and the known option at line 260) are one more than the option's commas, hold no comma, and joined with commas give the folded option |
| Parsing.LetterTokens | WordleSolver.cs:181-192 | a letter is collected if and only if it is an ASCII small letter and some token is exactly that one letter |
| Parsing.ExcludedLetters | WordleSolver.cs:177-193 | a letter is excluded if and only if it is an ASCII small letter and is a whole token of the case-folded exclude option. Tokens of any other length or character are ignored |
| Parsing.RequiredLetters | WordleSolver.cs:228-245 | a letter is required if and only if it is an ASCII small letter, is a whole token of the case-folded include option, and is not excluded |
| Parsing.LettersFrom | WordleSolver.cs:207-214 | the letters from a given code up to 'z' that are not excluded, each present exactly when not excluded, strictly ascending |
| Parsing.ValidLetters | WordleSolver.cs:206-214 | a letter is valid if and only if it lies in 'a'..'z' and is not excluded, and the list is strictly ascending |
| Parsing.TokenPosition | WordleSolver.cs:268 | a digit-letter token names the position given by its digit minus one, from -1 (digit 0) to 8 (digit 9) |
| Parsing.InsertKnown | WordleSolver.cs:264-272 | adding the tokens never overwrites an entry already in the map, and the only way it fails is a duplicate position |
| Parsing.InsertKnownSpec | WordleSolver.cs:264-272 | adding the tokens succeeds if and only if no two digit-letter tokens name the same position and none names a position already present. The resulting map holds exactly the earlier entries plus each named position with its token's letter. A failure reports a named position. That position is the one named by the first token that clashes with an earlier entry, as the first failing `Dictionary.Add` throws |
| Parsing.ParseKnown | WordleSolver.cs:257-274 | an empty option, or one with more tokens than the word length, records nothing. Otherwise only tokens matching `^\d[a-z]$` count: a digit then a small letter, or the same followed by one final line feed, which .NET's `$` also accepts. Parsing succeeds if and only if no position is named twice. The map then sends each named position to its letter and holds nothing else. A failure reports the first position that is named a second time |
| Parsing.InsertKnownFirstClash | WordleSolver.cs:264-272 | a failure reports the position of the first token whose position is already in the map or named by an earlier token, while the tokens before it add without a clash |
| Solver.ParseConstraints | WordleSolver.cs:175-274 | parsing fails exactly when known-position parsing fails. On success the valid letters are strictly ascending and are 'a'..'z' minus the exclude tokens. The required letters are the include tokens that are not excluded, and every required letter is valid |
| Solver.SatisfiesSolvesFor | WordleSolver.cs:175-245 | for constraints parsed from the exclude and include tokens, meeting the parsed constraints is the same as answering the puzzle as the options state it |
| Solver.SolveWordle | WordleSolver.cs:56-103 | the solver fails exactly on an empty dictionary, with that error. Otherwise its output is exactly the dictionary words meeting every constraint, strictly sorted when the valid letters ascend |
| Solver.CandidatesSorted | WordleSolver.cs:74-80 | the candidate list from the empty prefix is strictly sorted whenever the valid letters are strictly ascending |
| Solver.Run | WordleSolver.cs:171-293 | a repeated known position fails first, whatever the dictionary. Then an empty dictionary fails. Otherwise the output is strictly sorted and holds exactly the dictionary words that answer the puzzle as the options state it |
| Solver.RunDetermined | WordleSolver.cs:74-103 | any strictly sorted list of exactly the dictionary words that answer the puzzle is what a run returns, so the output is fully determined by the inputs |
| Scenarios.CapitalExcluded | WordleSolver.cs:180-191 | the exclude option `A` excludes exactly the letter 'a' |
| Scenarios.ThirdLetterParsed | WordleSolver.cs:264-270 | the known option `3e` records exactly 'e' at index 2 |
| Scenarios.KnownFirstLetter | WordleSolver.cs:257-274 | with the dictionary crane, crate, grate, plate and known token `1c`, the output is crane, crate |
| Scenarios.RequiredLetter | WordleSolver.cs:228-245 | with the same dictionary and include `t`, the output is crate, grate, plate |
| Scenarios.ExcludedLetter | WordleSolver.cs:177-214 | with dictionary abcde and exclude `a`, the output is empty |
| Scenarios.KnownLetterBeatsExclusion | WordleSolver.cs:18-28 | with dictionary abcde, exclude `a` and known `1a`, the output is abcde: an excluded letter is still placed at a known position |
| Scenarios.ExclusionBeatsInclusion | WordleSolver.cs:239 | with exclude `t` and include `t`, 't' is not required, and only crane, which has no 't', survives |
| Scenarios.RepeatedPosition | WordleSolver.cs:270 | known `1a,1a` fails with a duplicate position 0, even with an empty dictionary |
| Scenarios.TooManyKnownTokens | WordleSolver.cs:261 | known `1a,2b,3c` with length 2 records nothing |
| Scenarios.EmptyDictionaryReported | WordleSolver.cs:67-71 | an empty dictionary ends the run with the empty-dictionary error |
| Scenarios.ZeroLength | WordleSolver.cs:44-51 | with length 0 and a dictionary holding the empty word, the output is the empty word alone |

## Left out

- Command-line option declarations, defaults, help text and handler wiring (WordleSolver.cs:118-173, 285-297). These are argument plumbing. The model takes the option values as parameters.
- The `--debug` tracing (WordleSolver.cs:194-202, 215-223, 246-254, 275-283). It is console output only.
- Reading the dictionary file and writing `solutions.txt` or the console (WordleSolver.cs:60-66, 105-115). These are I/O. The dictionary is a given set of lines, and the result is returned. A missing file throws in `File.ReadAllLines`, and that is not modelled.
- Parsing.AsciiLower: folds ASCII capitals only. .NET `ToLower` is culture-sensitive and also folds non-ASCII letters, some of them to ASCII letters (the Kelvin sign becomes 'k'). Those inputs are not modelled.
- Parsing.IsKnownToken: takes `\d` as the ASCII digits 0-9. .NET's `\d` also matches other Unicode decimal digits, and `int.Parse` would then reject them. That path is not modelled.
- The order of `HashSet.ToList()` for the required letters is unspecified. The required letters are a set, and `FilterByLoop` accepts them in any order.
- The order of the output is stated as ordinal order, the character-code comparison. The source never sorts, so no culture-aware comparison is involved.
- Running time, and hash-set performance, of the exponential search are not behaviour and are not modelled.
