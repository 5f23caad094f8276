# GPU mystery game: answer classifier

A Dafny model of the answer-classification engine of the `GPUMysteryGame` class in
`scripts/detective.js`. The game has two stages. First the player names where a
stolen GPU is hidden (the *location*), then types the *password*. Each guess is
normalised and then classified against fixed tables:

- accepted answers;
- easter eggs, which are acknowledged but not accepted;
- known mistakes with a dedicated hint (location only);
- a progressive hint list that grows more specific with the attempt count.

Each stage keeps an attempt counter and a solved flag.

The model is functional. Each validator is a pure transition `(Game, input) -> Step`:
the next game value, the `ValidationResult`, and whether the victory summary is scheduled.

| file | module | models |
|---|---|---|
| `wrappers.dfy` | `Wrappers` | `Option`, for the source's `null` / `undefined` |
| `text.dfy` | `Text` | ASCII character classes, `trim`, `toLowerCase`, `includes`, `normalizeInput` |
| `levenshtein.dfy` | `Levenshtein` | the edit-distance recurrence, the table-filling `levenshteinDistance`, `fuzzyMatch` |
| `tables.dfy` | `Tables` | the answer, easter-egg and mistake tables, and the length of each hint list |
| `classifier.dfy` | `Classifier` | `isCorrectLocation`, `isCorrectPassword`, `isEasterEgg`, `getSpecificLocationHint`, the progressive hint index |
| `detective.dfy` | `Detective` | game state, `validateLocation`, `validatePassword`, `createResult`, `resetGame`, `calculateRank` |
| `detective_properties.dfy` | `DetectiveProperties` | the priority chains, the counter and flag discipline over whole sessions, the password rules |

Modelling choices:

- **Characters are ASCII.** `\w` is `[A-Za-z0-9_]`. Whitespace (for both `trim` and `\s`) is space, tab, line feed, vertical tab, form feed and carriage return. Lower-casing maps only `A`..`Z`.
- **Raw input is an `Option<string>`.** `None` stands for a `null` or absent input, which the source treats like the empty string.
- **Messages are categories.** A result carries its category. A specific hint carries the position of the mistake in the table. A progressive hint carries the position of the hint, or `None` where the source would read index -1.
- **The fuzzy threshold is exact.** `fuzzyMatch` compares `(longer - distance) / longer >= 0.8` in floating point. The model states it as `5 * (longer - distance) >= 4 * longer`. IEEE division rounds correctly, so a ratio of exactly 4/5 gives the same double as the literal `0.8`. For strings shorter than about 2^50 characters, a ratio on either side of 4/5 stays on that side.
- **Time is in tenths of a minute.** `getElapsedTime` rounds to tenths, so `calculateRank` takes an integer number of tenths. "10 minutes" becomes 100.

Behaviour of the code worth noting:

- **The victory summary can be scheduled more than once.** Only `validatePassword` schedules it (scripts/detective.js:147-150), and it does so on *every* correct password entered while the location is solved. `validateLocation` never schedules it. So solving the password first and the location second does not schedule it (`DetectiveProperties.PasswordFirstNeverCelebrates`).
- **`createResult` never returns `null` counters in practice.** It returns `null` only for a success whose category is not `correct`. No caller creates such a result, so every result carries the counters. The model keeps the `null` branch and proves it unreachable (the `attempts` ensures of both validators).
- **The password mistake list is never read.** `commonMistakes.password` is declared, but no check consults it. It sits in `Tables.PasswordMistakes` and no function uses it.
- **The fifth password hint is never shown.** From the fifth attempt on, a wrong password draws the security warning, so hint index 4 cannot be reached (`DetectiveProperties.SecurityWarningIff`).

## Model

| member | source | states |
|---|---|---|
| Text.TrimStart | scripts/detective.js:190 | the result is the longest suffix whose first character is not whitespace; everything dropped is whitespace |
| Text.TrimEnd | scripts/detective.js:193 | the result is the longest prefix whose last character is not whitespace; everything dropped is whitespace |
| Text.BlankIff | scripts/detective.js:82 | `trim()` gives the empty string exactly when every character is whitespace |
| Text.NormalizeIsNormal | scripts/detective.js:188-194 | normalised text contains only `[a-z0-9_ ]`, has no two adjacent spaces and no space at either end, so it has no upper-case letter |
| Text.NormalizeIdempotent | scripts/detective.js:188-194 | normalisation leaves a string unchanged exactly when it has the normal shape; normalising twice equals normalising once |
| Text.NormalizeShrinks | scripts/detective.js:188-194 | normalisation never lengthens its input |
| Text.HashAfterSpaceVanishes | scripts/detective.js:191-192 | a `#` between a space and a word is blanked and the double space collapsed, so "pc #4" normalises to "pc 4" |
| Levenshtein.LevenshteinDistance | scripts/detective.js:227-253 | the table-filling loop returns the classic edit distance between its two arguments, in either order |
| Levenshtein.NextRow | scripts/detective.js:238-250 | filling row `i` from row `i - 1` gives, in every column, the table distance from the first `i` characters of the second string to that prefix of the first |
| Levenshtein.TableIsDistance | scripts/detective.js:238-250 | the table's shortcut of copying the diagonal when characters agree computes the full insert/delete/substitute minimum |
| Levenshtein.EqualLastUsesDiagonal | scripts/detective.js:240-241 | when the last characters agree, the edit distance equals the distance of the two shorter prefixes |
| Levenshtein.DistanceSelf | scripts/detective.js:227-253 | a string is at distance 0 from itself |
| Levenshtein.DistanceUpperBound | scripts/detective.js:227-253 | the distance never exceeds the longer string's length |
| Levenshtein.DistanceLowerBound | scripts/detective.js:227-253 | the distance is at least the difference of the lengths |
| Levenshtein.DistanceSymmetric | scripts/detective.js:227-253 | the distance does not depend on argument order |
| Levenshtein.InsertOne | scripts/detective.js:227-253 | inserting one character anywhere costs at most one edit |
| Levenshtein.FuzzyMatchSelf | scripts/detective.js:216-225 | every string fuzzily matches itself, two empty strings included |
| Levenshtein.FuzzyMatchNeedsCloseLengths | scripts/detective.js:216-225 | strings whose lengths differ by more than a fifth of the longer never fuzzily match |
| Classifier.FirstMistake | scripts/detective.js:255-262 | the result is the first mistake, in definition order, that the guess mentions, and `null` exactly when it mentions none |
| Classifier.ProgressiveHintIndex | scripts/detective.js:264-288 | the hint index is `attempts - 1` up to the last hint and then stays on the last; it is undefined only for attempt 0 or an empty list |
| Classifier.ContainsAnswerIsCorrect | scripts/detective.js:196-202 | a guess that equals or contains an accepted location is correct |
| Classifier.LocationAnswersLength | scripts/detective.js:19-32 | every accepted location has at least four characters |
| Classifier.ShortGuessMatchesNothing | scripts/detective.js:196-214 | a normalised guess of at most three characters matches no accepted location, easter egg or known mistake |
| Classifier.PasswordAnswersLower | scripts/detective.js:33-35 | every accepted password spelling lower-cases to "video" |
| Classifier.PasswordCorrectIff | scripts/detective.js:204-208 | a password is correct exactly when it lower-cases to "video" |
| Detective.ValidateLocation | scripts/detective.js:79-128 | the location counter grows by one for every call, empty input included; the password counter, the password flag and the clock are untouched; the location flag is set exactly by a correct result; success means `correct`; the result always carries the new counters; no victory is scheduled |
| Detective.ValidatePassword | scripts/detective.js:131-185 | the password counter grows by one for every call; the location counter, the location flag and the clock are untouched; the password flag is set exactly by a correct result; success means `correct`; the result always carries the new counters; victory is scheduled exactly for a correct password while the location is solved |
| Detective.ResetGame | scripts/detective.js:379-383 | from any state, both counters become 0, both flags false, and the clock restarts at the given time |
| Detective.CalculateRank | scripts/detective.js:331-336 | the rank is the first tier of (10 min, 4), (20 min, 8), (30 min, 12) whose bounds both hold, else trainee; every better tier fails one of its bounds |
| DetectiveProperties.EmptyInputIffBlank | scripts/detective.js:82-84 | both validators return `empty_input` exactly for absent or whitespace-only input |
| DetectiveProperties.LocationPriorityChain | scripts/detective.js:89-127 | a non-empty location guess is classified correct, else easter egg, else the first known mistake it mentions, else a progressive hint |
| DetectiveProperties.PasswordPriorityChain | scripts/detective.js:138-184 | a non-empty password is classified correct, else easter egg, else a security warning from the fifth attempt on, else a progressive hint |
| DetectiveProperties.ContainedAnswerIsCorrect | scripts/detective.js:89-91 | a guess whose normalised form equals or contains an accepted location solves the location stage |
| DetectiveProperties.EveryLocationAnswerAccepted | scripts/detective.js:19-32 | typing any listed location answer verbatim is classified correct, the three spellings with `#` included |
| DetectiveProperties.MissingLetterAccepted | scripts/detective.js:196-201 | a normal-shaped guess of at least four characters that misses one letter of an accepted spelling is classified correct |
| DetectiveProperties.OneTypoAccepted | scripts/detective.js:216-225 | "forth pc", one insertion away from "fourth pc", is accepted |
| DetectiveProperties.ShortGuessGetsProgressiveHint | scripts/detective.js:113-127 | a non-blank guess of at most three characters, such as "!!!" that normalises to nothing, gets a progressive hint rather than `empty_input` |
| DetectiveProperties.LocationHintClamped | scripts/detective.js:264-275 | a progressive location hint always exists, is `min(attempts - 1, 4)` for the incremented counter, and stays the last hint from the fifth attempt on |
| DetectiveProperties.PasswordCorrectIff | scripts/detective.js:138-140 | the password stage is solved exactly when the trimmed guess equals "video" ignoring case |
| DetectiveProperties.PasswordCaseIgnored | scripts/detective.js:204-208 | any casing of "video", in the table or not, succeeds |
| DetectiveProperties.EveryPasswordAnswerAccepted | scripts/detective.js:33-35 | every listed password spelling, "VIDEO" and "ViDeO" among them, succeeds |
| DetectiveProperties.PasswordTrimmed | scripts/detective.js:139 | any casing of "video" with a space on either side succeeds: surrounding whitespace is ignored |
| DetectiveProperties.PasswordNotSubstring | scripts/detective.js:204-208 | a password whose trimmed length is not five, such as "Videos", fails: the password is matched whole, never as a part |
| DetectiveProperties.SecurityWarningIff | scripts/detective.js:167-184 | a wrong, non-egg password draws the security warning exactly when its counter reaches 5; before that the hint index is the attempt number minus one, so the last hint is never shown |
| DetectiveProperties.PasswordFirstNeverCelebrates | scripts/detective.js:147-150 | from a fresh game, "video" then "4th pc" solves both stages but schedules no victory |
| DetectiveProperties.RankMonotone | scripts/detective.js:331-336 | more time or more attempts never earn a better rank |
| DetectiveProperties.RunCountsEveryGuess | scripts/detective.js:79-185 | without a reset, each counter grows by exactly the number of guesses at its stage, solved flags never revert, and the clock is not restarted |
| DetectiveProperties.ResetForgetsHistory | scripts/detective.js:379-383 | any session that ends in a reset leaves the same zeroed game |
| DetectiveProperties.WarningAfterFourGuesses | scripts/detective.js:168-174 | after a reset and four password guesses, every further wrong non-egg password draws the security warning |

## Left out

- `logEvent`, its `localStorage` log and all console output: side effects that do not affect any result.
- `initialize` and `enableDebugMode`: these only log.
- `showVictory`, `alert` and the one-second `setTimeout`: asynchronous UI. The model keeps only a `victory` flag saying the summary is scheduled.
- `getElapsedTime` and `getGameStats`: they read `Date.now()`. Elapsed time reaches `CalculateRank` as an integer. The start time `gameStartTime` is kept as `Game.startTime`, and the `now` parameter of `ResetGame` stands in for the `Date.now()` it is assigned from.
- The global `mysteryGame` and the wrappers `initializeGame`, `checkLocation`, `checkPassword`, `getGameStats`, `resetGame`: prompt and DOM glue.
- Full Unicode handling: `toLowerCase`, `trim` and `\s` are modelled on ASCII only. Non-ASCII characters are non-word characters, and normalisation turns them into spaces, as the source's non-Unicode `\w` does. The model therefore differs from the source wherever non-ASCII characters matter:
  - characters whose `toLowerCase` yields ASCII letters;
  - input made only of non-ASCII whitespace such as U+00A0, which the source reports as empty and the model answers with a progressive hint, or with the security warning from the fifth password attempt on;
  - a password with non-ASCII whitespace around it, such as "video" followed by U+00A0, which the source's `trim` accepts and the model refuses;
  - string lengths, which the model counts in characters rather than UTF-16 code units.
- The result's `attempts` field is a value snapshot. In the source it is a reference to the live counters object, which later calls keep changing.
- Message texts, emoji included, and the texts of the hints and of the mistake hints: results carry the category and a table position instead, so the tables keep only the mistake keys and the number of hints.
