# geoman quiz core, modelled in Dafny

geoman is a geography quiz. A player picks a continent and a category
(cities, rivers, ...), types the names of the places marked on a map against
a three-minute countdown, and submits. Each typed answer is normalised and
compared with the item's accepted answers, allowing for small typos in long
names and for long names cut short. The score is recorded in an app-wide
store that keeps the last score per continent and category plus two running
totals. A separate "I'm feeling lucky" page runs an endless multiple-choice
trivia round with a score, a streak and a best streak.

The project models that core:

- `scoring.dfy` (module `Scoring`) covers `normalize`, the Levenshtein
  distance, `checkAnswer` and `calculateScore`. `normalize` and
  `checkAnswer` are pure functions. The distance fills a matrix in place: a
  Dafny `array2` filled by a method proved against a recursive definition of
  edit distance. `calculateScore` counts into three tallies while it maps
  over the items: a method with a loop, proved against a function that
  gives its result as a value.
- `quiz_store.dfy` (module `QuizStore`) covers the `RECORD_SCORE` reducer.
  Its main invariant is that the two running totals always equal the sums
  over the stored records.
- `quiz_session.dfy` (module `QuizSession`) covers the `useQuiz` hook. It is
  a class whose methods update the answers, the phase, the results and the
  focused item.
- `timer.dfy` (module `Timer`) covers the `useTimer` hook. It is a class with
  one `Tick` per firing of the interval. It also holds `formatTime`, proved
  lossless for non-negative seconds by a parser back from `m:ss`.
- `quiz_page.dfy` (module `QuizPage`) covers the quiz page's controller. It
  combines the session, the countdown and the store through the auto-submit
  effect, the record-score effect and the retry handler. The controller
  follows the page as written, including its auto-submit on an empty data
  list (see "Findings"); the corrected effect stands beside it.
- `lucky.dfy` (module `Lucky`) covers the trivia page's handlers. Its
  counters are proved equal to a replay of the answer history, which
  characterises the streak and the best streak.
- `continents.dfy` (module `Continents`) covers the continent table and the
  country-to-continent index built from it.
- `optional.dfy` (module `Optional`) holds the shared `Option` type.

All paths below are relative to the repository root.

## Model

| member | source | states |
|---|---|---|
| Scoring.LowerChar | src/utils/scoring.js:18 | a lowered character is never an upper-case ASCII letter; it keeps being (or not being) a letter or digit and white space |
| Scoring.Lower | src/utils/scoring.js:18 | lowering keeps the length |
| Scoring.TrimStart | src/utils/scoring.js:19 | removes the leading white space; the result is no longer than the input (its full contract is `TrimStartSpec`) |
| Scoring.TrimEnd | src/utils/scoring.js:19 | removes the trailing white space; the result is no longer than the input (its full contract is `TrimEndSpec`) |
| Scoring.Trim | src/utils/scoring.js:19 | `trim`, also used at src/utils/scoring.js:42: the trailing trim of the leading trim; specified by `TrimStartSpec`, `TrimEndSpec` and `AlnumsTrim` |
| Scoring.Strip | src/utils/scoring.js:20 | removes every character other than letters, digits and white space; the result is no longer than the input (its full contract is `StripSpec`) |
| Scoring.Collapse | src/utils/scoring.js:21 | turns each run of white space into one space; the result is no longer than the input; `CollapseRun`, `CollapseAppend` and `CollapseWithoutSpaces` together determine it on every input |
| Scoring.TrimStartSpec | src/utils/scoring.js:19 | the result is a suffix of the input; everything removed is white space; the result is empty or starts with a non-space |
| Scoring.TrimEndSpec | src/utils/scoring.js:19 | the result is a prefix of the input; everything removed is white space; the result is empty or ends with a non-space |
| Scoring.StripSpec | src/utils/scoring.js:20 | only letters, digits and white space survive, and no character is added |
| Scoring.StripKeepsKept | src/utils/scoring.js:20 | a string of letters, digits and white space is left unchanged |
| Scoring.StripAppend | src/utils/scoring.js:20 | stripping works character by character: it distributes over concatenation |
| Scoring.StrippedParis | src/utils/scoring.js:20 | `"paris!!"` strips to `"paris"` |
| Scoring.CollapseSpec | src/utils/scoring.js:21 | collapsing is empty exactly when its input is; it starts with a space exactly when the input starts with white space; no two spaces end up adjacent |
| Scoring.CollapseNormalChars | src/utils/scoring.js:21 | on lower-case letters, digits and white space, collapsing leaves only lower-case letters, digits and plain spaces |
| Scoring.CollapseWithoutSpaces | src/utils/scoring.js:21 | a string without white space is left unchanged |
| Scoring.TrimStartRun | src/utils/scoring.js:21 | a run of white space in front of a string that does not start with white space is trimmed away entirely |
| Scoring.TrimStartAppend | src/utils/scoring.js:21 | trimming the start of `a + b` stops inside `a` when `a` ends with a character that is not white space |
| Scoring.CollapseRun | src/utils/scoring.js:21 | a non-empty run of white space followed by a non-space becomes exactly one space |
| Scoring.CollapseAppend | src/utils/scoring.js:21 | a string cut after a non-space collapses piece by piece, so every run between words is collapsed on its own |
| Scoring.CollapseWords | src/utils/scoring.js:21 | two words with a run of white space between them come out with exactly one space between them |
| Scoring.CollapsedNewYork | src/utils/scoring.js:21 | `"new  york"` collapses to `"new york"` |
| Scoring.NormalizeShape | src/utils/scoring.js:16-22 | a normalised string holds only `a`-`z`, `0`-`9` and single spaces |
| Scoring.Normalize | src/utils/scoring.js:16-22 | `normalize`: lower-case, trim, strip, collapse, in that order; specified by `NormalizeShape`, `NormalizeKeepsAlnums`, `NormalizeWord` and, for the spaces between words, `CollapseRun` and `CollapseAppend` (`NormalizedNewYork`) |
| Scoring.AlnumsTrim | src/utils/scoring.js:19 | trimming loses no letter or digit |
| Scoring.AlnumsStrip | src/utils/scoring.js:20 | stripping loses no letter or digit |
| Scoring.AlnumsCollapse | src/utils/scoring.js:21 | collapsing loses no letter or digit |
| Scoring.NormalizeKeepsAlnums | src/utils/scoring.js:16-22 | normalising keeps exactly the lowered letters and digits, in order |
| Scoring.NormalizeWord | src/utils/scoring.js:16-22 | a word of letters and digits normalises to its lower-case form |
| Scoring.NormalizeNotIdempotent | src/utils/scoring.js:19-21 | trimming comes before stripping, so a leading space can survive: `"! a"` normalises to `" a"`, which normalises again to `"a"` |
| Scoring.NormalizedShoutedParis | src/utils/scoring.js:16-22 | `"  PARIS!!"` normalises to `"paris"` |
| Scoring.NormalizedParis | src/utils/scoring.js:16-22 | `"Paris"` normalises to `"paris"` |
| Scoring.NormalizedNile | src/utils/scoring.js:16-22 | `"Nil"` and `"Nile"` normalise to `"nil"` and `"nile"` |
| Scoring.NormalizedNewYork | src/utils/scoring.js:16-22 | a two-word answer keeps one separating space: `"New  York"` normalises to `"new york"` |
| Scoring.Min3 | src/utils/scoring.js:10 | the result is one of the three arguments and no larger than any of them |
| Scoring.EditDistanceStep | src/utils/scoring.js:7-10 | the recursive distance obeys the matrix recurrence for non-empty strings |
| Scoring.MatrixCell | src/utils/scoring.js:5-11 | the recurrence restated for the prefixes that cell `[i][j]` stands for |
| Scoring.EditDistanceEmpty | src/utils/scoring.js:2-4 | the distance to or from the empty string is the other string's length, which is the matrix's first row and column |
| Scoring.Levenshtein | src/utils/scoring.js:1-14 | the in-place matrix computation returns the edit distance of the two strings |
| Scoring.EditDistanceSymmetric | src/utils/scoring.js:1-14 | the distance is symmetric |
| Scoring.EditDistanceSelf | src/utils/scoring.js:1-14 | a string is at distance 0 from itself |
| Scoring.EditDistanceZero | src/utils/scoring.js:1-14 | the distance is 0 exactly when the strings are equal |
| Scoring.EditDistanceBounds | src/utils/scoring.js:1-14 | the distance is at least the length difference and at most the longer length |
| Scoring.AnyAcceptsSpec | src/utils/scoring.js:27-33 | `some` holds exactly when some normalised accepted answer accepts the input by one of the three rules |
| Scoring.Accepts | src/utils/scoring.js:29-31 | the three rules for one accepted answer (exact, typo allowance on answers longer than 4, prefix of at least 5 on answers longer than 8); specified through `CheckAnswerSpec`, `ShortAnswerExactOnly` and `AcceptedAnswerMatchesItself` |
| Scoring.AnyAccepts | src/utils/scoring.js:27-33 | `acceptedAnswers.some(...)` over the normalised accepted answers; specified by `AnyAcceptsSpec` |
| Scoring.CheckAnswer | src/utils/scoring.js:24-34 | `checkAnswer`; specified by `CheckAnswerSpec` |
| Scoring.CheckAnswerSpec | src/utils/scoring.js:24-34 | an answer is correct exactly when it normalises to something non-empty that one of the accepted answers accepts by exact match, a typo allowance of 2 on answers longer than 4, or a prefix of at least 5 characters of an answer longer than 8 |
| Scoring.BlankInputsNeverMatch | src/utils/scoring.js:25-26 | empty, blank and punctuation-only inputs are never correct |
| Scoring.ShortAnswerExactOnly | src/utils/scoring.js:29-31 | an accepted answer of at most 4 characters accepts only an exact match |
| Scoring.ShortAnswerRejectsNearMiss | src/utils/scoring.js:30 | `"Nil"` is not accepted for `"Nile"` |
| Scoring.ExactMatchIgnoresCaseAndPunctuation | src/utils/scoring.js:24-29 | `"  PARIS!!"` is accepted for `"Paris"` |
| Scoring.AcceptedAnswerMatchesItself | src/utils/scoring.js:27-29 | an accepted answer that normalises to something non-empty is itself correct |
| Scoring.CheckAnswerMonotone | src/utils/scoring.js:27-33 | adding accepted answers never turns a correct answer incorrect |
| Scoring.ScoreItems | src/utils/scoring.js:40-50 | one result per item |
| Scoring.AnswerFor | src/utils/scoring.js:41 | `answers[item.id] \|\| ''`: a missing answer reads as empty, and an empty one is skipped; specified through `ScoreTally` |
| Scoring.ScoreItem | src/utils/scoring.js:41-49 | the result for one item; specified by `ScoreItemsAt` and `ScoreTally` |
| Scoring.Score | src/utils/scoring.js:36-52 | what `calculateScore` returns, as a value; specified by `ScoreTally` and computed by `CalculateScore` |
| Scoring.ScoreItemsAt | src/utils/scoring.js:40-50 | result `k` is the result for item `k` |
| Scoring.CountsPartition | src/utils/scoring.js:37-51 | when no skipped result is correct, correct + incorrect + skipped is the number of results |
| Scoring.ScoreTally | src/utils/scoring.js:36-52 | the counts add up to the total, which is the number of items; an item is skipped exactly when its answer (missing means empty) trims to nothing; a skipped item has an empty answer and is not correct; any other item keeps its answer and is correct exactly when `checkAnswer` accepts it |
| Scoring.CalculateScore | src/utils/scoring.js:36-52 | the counting loop returns the score that `Score` specifies |
| QuizStore.Key | src/context/QuizContext.jsx:15 | the key is the continent id, a `-`, then the category |
| QuizStore.InitialState | src/context/QuizContext.jsx:5-9 | no records and both totals 0; `InitialConsistent` shows its totals equal the sums over its records |
| QuizStore.PrevCorrect | src/context/QuizContext.jsx:24 | `prev?.correct \|\| 0`; its use is stated by `Reduce` and `ReducePreservesConsistency` |
| QuizStore.PrevTotal | src/context/QuizContext.jsx:25 | `prev?.total \|\| 0`; its use is stated by `Reduce` and `ReducePreservesConsistency` |
| QuizStore.KeyInjective | src/context/QuizContext.jsx:15 | for categories without `-`, the key determines both the continent id and the category |
| QuizStore.Reduce | src/context/QuizContext.jsx:11-31 | `RECORD_SCORE` adds or overwrites exactly the record under its key, keeps every other record, and adjusts each total by the new value minus the previous one (0 when none); any other action changes nothing |
| QuizStore.InitialConsistent | src/context/QuizContext.jsx:5-9 | the initial totals are the sums over the (empty) records |
| QuizStore.ReducePreservesConsistency | src/context/QuizContext.jsx:13-27 | if the totals equal the sums over the records before an action, they still do after it |
| QuizStore.Run | src/context/QuizContext.jsx:11-31 | the store after dispatching a sequence of actions to `quizReducer` from `initialState`, as `useReducer` does; specified by `RunConsistent` and `RunTotalsOrdered` |
| QuizStore.RunConsistent | src/context/QuizContext.jsx:11-31 | after any sequence of actions from the initial state, the totals equal the sums over the records |
| QuizStore.RecordTwiceSameKey | src/context/QuizContext.jsx:13-27 | recording twice under one key is the same as recording the second score only |
| QuizStore.TotalsOrdered | src/context/QuizContext.jsx:24-25 | in a consistent store whose records are well formed, total correct never exceeds total attempted |
| QuizStore.RunTotalsOrdered | src/context/QuizContext.jsx:11-31 | if every recorded score has correct <= total, then so do all records and the totals |
| QuizSession.Quiz.constructor | src/hooks/useQuiz.js:5-8 | no answers, active, no results, no focus |
| QuizSession.Quiz.UpdateAnswer | src/hooks/useQuiz.js:10-12 | one entry is set, in any phase, and nothing else changes |
| QuizSession.Quiz.SetFocusedId | src/hooks/useQuiz.js:8 | only the focus changes |
| QuizSession.Quiz.Submit | src/hooks/useQuiz.js:14-19 | without data nothing changes; with data the results become the score of the current answers and the phase becomes submitted |
| QuizSession.Quiz.Retry | src/hooks/useQuiz.js:21-26 | back to exactly the initial state |
| QuizSession.NoAnswerAllSkipped | src/hooks/useQuiz.js:28 | without a non-blank answer every item is skipped and none is correct or incorrect |
| QuizSession.HasAnyAnswer | src/hooks/useQuiz.js:28 | `hasAnyAnswer`: some answer is non-blank after trimming; its consequences for scoring are `NoAnswerAllSkipped` and `AnsweredItemNotSkipped` |
| QuizSession.AllSkippedCounts | src/utils/scoring.js:41-44 | results that are all skipped and not correct count as all skipped, none correct and none incorrect |
| QuizSession.AnsweredItemNotSkipped | src/hooks/useQuiz.js:28 | a non-blank answer for a quiz item makes `hasAnyAnswer` true and that item not skipped |
| QuizSession.HasAnyAnswerUpdate | src/hooks/useQuiz.js:28 | typing a non-blank value makes `hasAnyAnswer` true; after an update it holds only if the new value is non-blank or it held before |
| QuizSession.InitialHasNoAnswer | src/hooks/useQuiz.js:5 | the initial answers have no non-blank entry |
| Timer.Advance | src/hooks/useTimer.js:8-24 | a stopped or expired clock does not change; a running clock above 1 counts down by one; from 1 or less it lands on 0 and stops |
| Timer.Expired | src/hooks/useTimer.js:45 | `isExpired`: no seconds left; `ExpiredIsFinal` shows an expired clock never changes |
| Timer.AdvanceByRunning | src/hooks/useTimer.js:8-24 | from `s > 0` seconds, running, `n` ticks leave `max(s - n, 0)` seconds, running exactly while time is left |
| Timer.AdvanceByInRange | src/hooks/useTimer.js:14-21 | ticking keeps the seconds between 0 and the start |
| Timer.ExpiredIsFinal | src/hooks/useTimer.js:8-12 | an expired clock never changes again |
| Timer.Countdown.constructor | src/hooks/useTimer.js:3-5 | starts at the given seconds (180 by default), running if enabled (by default) |
| Timer.Countdown.Tick | src/hooks/useTimer.js:14-21 | one firing of the interval is one `Advance`, keeping the seconds in range |
| Timer.Countdown.Stop | src/hooks/useTimer.js:31-34 | stops and keeps the seconds |
| Timer.Countdown.Reset | src/hooks/useTimer.js:26-29 | back to the starting seconds and the starting running flag |
| Timer.Countdown.IsExpired | src/hooks/useTimer.js:45 | expired exactly when the seconds are at most 0 |
| Timer.Digits | src/hooks/useTimer.js:39 | at least one decimal digit, one exactly below 10, no leading zero |
| Timer.IntToString | src/hooks/useTimer.js:39 | `toString` of an integer, a minus sign before the digits when negative; read back by `FormatTimeRoundTrip` |
| Timer.DigitsValueOfDigits | src/hooks/useTimer.js:39 | the digits read back as the number |
| Timer.PadStart | src/hooks/useTimer.js:39 | the result has the requested width, or the input's length if that is larger |
| Timer.PadStartSpec | src/hooks/useTimer.js:39 | the result is the input after as many `0`s as it lacked |
| Timer.SecondsPart | src/hooks/useTimer.js:38 | the remainder lies strictly between -60 and 60 and is the usual remainder for non-negative seconds |
| Timer.Minutes | src/hooks/useTimer.js:37 | `Math.floor(s / 60)`; `ParseTimeOfFields` and `FormatTimeRoundTrip` read it back as the whole minutes |
| Timer.FormatTimeShape | src/hooks/useTimer.js:36-40 | for non-negative seconds: the minutes' digits, a colon, and the seconds padded to two characters |
| Timer.FormatTime | src/hooks/useTimer.js:36-40 | `formatTime`; specified by `FormatTimeShape` and `FormatTimeRoundTrip` |
| Timer.Countdown.Formatted | src/hooks/useTimer.js:46 | `formatted` is `formatTime` of the current seconds, which `FormatTimeRoundTrip` reads back |
| Timer.SecondsField | src/hooks/useTimer.js:38-39 | the padded seconds field is two digits that read back as the seconds |
| Timer.ParseTimeOfFields | src/hooks/useTimer.js:36-40 | minutes' digits, a colon and a padded seconds field below 60 read back as minutes * 60 + seconds |
| Timer.FormatTimeRoundTrip | src/hooks/useTimer.js:36-40 | formatting loses nothing: for non-negative seconds, reading the text back gives the seconds |
| QuizPage.ShowsQuiz | src/pages/QuizPage.jsx:97 | the page renders a quiz only for data that is present and non-empty; `SubmittedTotalPositive` gives its consequence for the score |
| QuizPage.AutoSubmitDueAsWritten | src/pages/QuizPage.jsx:50 | the guard as written: expired, active and data truthy, which an empty list is; `ComingSoonPageRecordsZero` shows it fires on an empty list |
| QuizPage.AutoSubmitDue | src/pages/QuizPage.jsx:50 | the corrected guard: expired, active and a shown quiz; `AutoSubmitDueCorrected` relates it to the guard as written |
| QuizPage.ComingSoonPageRecordsZero | src/pages/QuizPage.jsx:49-53 | as written, the guard fires on an empty data list, which the page does not show, and the store then records 0 out of 0 under the page's key |
| QuizPage.AutoSubmitDueCorrected | src/pages/QuizPage.jsx:49-53 | the corrected guard fires only on a shown quiz, and there it agrees with the guard as written |
| QuizPage.Controller.constructor | src/pages/QuizPage.jsx:28-46 | loading, no data, a fresh quiz, a 180-second countdown already running |
| QuizPage.Controller.SubmitAndRecord | src/pages/QuizPage.jsx:55-69 | with data present (an empty list included), the quiz is scored and submitted with its answers and focus kept, the timer stops with its seconds kept, `RECORD_SCORE` is applied with the page's key and the counts, and the loading flag and data stay |
| QuizPage.Controller.AutoSubmitEffect | src/pages/QuizPage.jsx:49-53 | when expired, active and holding any data (an empty list included), it submits and records exactly as `SubmitAndRecord`; otherwise nothing changes |
| QuizPage.Controller.Loaded | src/pages/QuizPage.jsx:31-53 | loading ends with the loaded data or none; if the time has already run out on an active quiz and data arrived, the quiz is submitted and recorded and the timer stopped; otherwise nothing else changes |
| QuizPage.Controller.SecondElapsed | src/pages/QuizPage.jsx:46-53 | one tick; an active quiz with data whose time has just run out is scored as it stands (focus kept), the timer reads 0 and is stopped, and the score is recorded; otherwise only the clock moves |
| QuizPage.Controller.EditAnswer | src/pages/QuizPage.jsx:150-158 | typing while the quiz is active sets one answer |
| QuizPage.Controller.PressSubmit | src/pages/QuizPage.jsx:159-161 | the enabled Submit button scores the answers (focus kept), stops the timer with its seconds kept, records the counts, and leaves the loading flag and data as they were |
| QuizPage.Controller.Retry | src/pages/QuizPage.jsx:71-74 | quiz and countdown are back to their initial states and the recorded score stays |
| QuizPage.SubmittedTotalPositive | src/pages/QuizPage.jsx:97-109 | a shown quiz has items, so its score's total is their number and is positive |
| QuizPage.Controller.AutoSubmitEffectCorrected | src/pages/QuizPage.jsx:49-53 | the auto-submit effect with the guard the page means: it fires only on a shown quiz, does there what `AutoSubmitEffect` does, and the total it records is the positive number of items; otherwise nothing changes |
| QuizPage.EmptyDataRecordsZero | src/pages/QuizPage.jsx:45-69 | the page as written, loaded with an empty list: it shows no quiz, yet after 180 ticks the quiz is submitted and 0 out of 0 is recorded under its key |
| Lucky.SelectStepSpec | src/pages/LuckyPage.jsx:42-54 | one selection keeps streak <= best streak <= score <= answered, adds 1 to answered and 1 to score if correct; a correct one extends the streak and keeps the best at least as large; a wrong one resets the streak and keeps the best |
| Lucky.SelectStep | src/pages/LuckyPage.jsx:42-54 | the counter updates of one accepted selection; specified by `SelectStepSpec` |
| Lucky.ReplaySnoc | src/pages/LuckyPage.jsx:38-55 | replaying one more outcome is one more selection step |
| Lucky.ReplayCounts | src/pages/LuckyPage.jsx:38-55 | after any history: answered is its length, score its number of correct answers, and streak <= best streak <= score <= answered |
| Lucky.StreakIsTrailingRun | src/pages/LuckyPage.jsx:44-54 | the streak is a run of correct answers ending now, preceded by a wrong one or the start |
| Lucky.TrailingRunBound | src/pages/LuckyPage.jsx:44-54 | every run of correct answers ending now is at most the streak |
| Lucky.BestStreakBound | src/pages/LuckyPage.jsx:47-51 | every run of correct answers anywhere in the history is at most the best streak |
| Lucky.BestStreakAttained | src/pages/LuckyPage.jsx:47-51 | some run of correct answers in the history is exactly the best streak |
| Lucky.Accuracy | src/pages/LuckyPage.jsx:87 | 0 with nothing answered; otherwise within half a percent of 100 * score / answered |
| Lucky.AccuracyInRange | src/pages/LuckyPage.jsx:87 | with score <= answered the percentage is between 0 and 100 |
| Lucky.QuestionAt | src/pages/LuckyPage.jsx:36 | a question exists exactly when the list is non-empty, and it is one of the list's questions |
| Lucky.QuestionsRepeat | src/pages/LuckyPage.jsx:36 | the questions cycle with the list's length as period |
| Lucky.QuestionsCover | src/pages/LuckyPage.jsx:36 | every question comes up within any window of as many steps as there are questions |
| Lucky.LuckyGame.constructor | src/pages/LuckyPage.jsx:9-17 | no trivia, first question, nothing selected, all counters zero |
| Lucky.LuckyGame.CurrentQuestion | src/pages/LuckyPage.jsx:36 | the question at the current position, cycling through the list |
| Lucky.LuckyGame.Load | src/pages/LuckyPage.jsx:20-26 | only the trivia list changes, to the given order |
| Lucky.LuckyGame.Tally | src/pages/LuckyPage.jsx:42-54 | the counters take one selection step and the outcome is appended to the history |
| Lucky.LuckyGame.Select | src/pages/LuckyPage.jsx:38-55 | a second selection changes nothing; a first one records the option, shows the result and tallies whether it was the answer |
| Lucky.LuckyGame.Next | src/pages/LuckyPage.jsx:57-61 | clears the selection and moves to the next position, keeping the counters |
| Lucky.LuckyGame.Restart | src/pages/LuckyPage.jsx:63-73 | the list is reordered (the same questions), the position, the selection and all counters return to zero |
| Continents.Table | src/data/continents.js:1-50 | the six continents with their ids, names and country codes, in declaration order; `BuildIndex` builds its index |
| Continents.BuildIndex | src/data/continents.js:52-58 | the nested loop builds exactly the index `IndexOf` specifies |
| Continents.AssignAllSpec | src/data/continents.js:55-57 | after the inner loop, the keys are the old ones plus the continent's codes; those map to the continent; the rest are unchanged |
| Continents.IndexKeys | src/data/continents.js:52-58 | a code is in the index exactly when some continent lists it |
| Continents.IndexValue | src/data/continents.js:52-58 | an indexed code maps to a continent that lists it, with no later continent listing it |
| Continents.IndexMapsToListingContinent | src/data/continents.js:52-58 | a listed code is indexed, under a continent that lists it |
| Continents.IndexLastWins | src/data/continents.js:54-57 | a code is indexed under the last continent in table order that lists it |

## Left out

- Unicode case mapping: `Scoring.Lower` lowers only `A`-`Z`. The characters
  outside ASCII whose lower case is an ASCII letter (the Kelvin sign, the
  dotted capital I) are not modelled. White space follows the full
  ECMAScript set.
- Scoring.Lower: its contract states only the length. Its per-character
  behaviour is given by `LowerChar` and used through the normalisation
  lemmas.
- QuizStore.KeyInjective: holds only for categories without `-`. The real
  categories have none, while continent ids such as `north-america` do.
- Lucky.Accuracy: computed with exact integers, as round-half-up of
  100 * score / answered. `Math.round` on a floating-point quotient can
  differ where the quotient lies within rounding error of a half.
- `Date.now()` in the reducer is the `date` field of the action, passed in
  by the caller (`now` in the page's methods).
- Loading quiz data and trivia (dynamic imports) is not modelled. Their
  outcome is a parameter: `Some(data)` or `None` for a failed load.
- The random shuffle of the trivia list is a parameter, required to be a
  permutation of the list. The shuffle of each question's options
  (`shuffled`) is not modelled, because it is presentation. The option the
  player clicks is `Lucky.LuckyGame.Select`'s parameter, and any string is
  accepted there.
- The interval and `clearInterval` are not modelled as such. Each firing is
  one `Tick` or `SecondElapsed`. Timing is not modelled, nor is the stale
  `intervalRef` after a stop.
- React's rendering, effect scheduling and batching are not modelled. Each
  handler runs to completion, and the effects run right after the state
  change that triggers them.
- QuizPage.Controller.EditAnswer: requires an active quiz, because the page
  renders the inputs only then. The hook itself accepts updates in any phase
  (`QuizSession.Quiz.UpdateAnswer`).
- Changing the route parameters of a mounted page, and the "Not found" page
  for an unknown continent, are not modelled.
- The map components, the focus highlighting, the results view and the
  theme are not modelled.
- The centre, scale, colour and bounds fields of the continent table are
  not modelled.
- Continents: no fact about individual codes of the shipped `Table` is
  proved. Only the general lemmas about any table are proved.
- `Timer.Countdown.Formatted` on negative seconds is modelled (JavaScript's
  sign-following remainder), but the round trip is proved only for
  non-negative seconds, which are the only ones the countdown reaches.
- Persisting scores across sessions, and the best score shown by the
  category picker, are not modelled.

## Findings

| source | as written | input that shows it | evidently intended | confidence | as-written member | corrected member |
|---|---|---|---|---|---|---|
| src/pages/QuizPage.jsx:50 | the auto-submit guard tests `quizData` for truthiness, which an empty array passes | a data file holding an empty list: the page shows "Coming Soon", yet after 180 seconds it submits and records 0 out of 0 under that continent and category, so the category picker shows "Best: 0/0" (src/components/CategoryPicker.jsx:44) for a category that has no quiz | only a quiz that is shown (data present and non-empty, as at line 97) is auto-submitted | high; not executed | QuizPage.EmptyDataRecordsZero | QuizPage.Controller.AutoSubmitEffectCorrected |
