# Wordle solver core, modelled in Dafny

This project models the core of an information-theoretic Wordle solver. The
model covers:

- **Feedback pattern.** A guess against an answer gives five marks: gray 0,
  yellow 1, green 2. Duplicate letters are handled the way the real game does.
- **Constraints.** The solver accumulates fixed positions, letters that must
  occur, letters excluded at a position, and letters known absent. A candidate
  word is tested against them.
- **Session.** It holds the word lists, the remaining candidates and the guess
  history. Operations: make a guess, reset, suggest the best guess, and solve
  against a known answer.
- **Guess selection.** Its integer parts are the pattern-bucket tally behind the
  entropy score, the argmax over the guess pool, and the bounded "strategic
  subset" of the pool.
- **Input parser.** It reads a typed colour pattern such as `gy_b.`.

Modules, one per file:

- `Wrappers`: Option and Result.
- `Seqs`: counting, subsequences and map totals.
- `Words`: five-letter words and ASCII upper-casing.
- `Pattern`: `get_pattern` and `pattern_to_text`.
- `Constraints`: the `WordleConstraints` class and its value model `Knowledge`.
- `Entropy`: the pattern tally.
- `Selection`: best-guess selection and the strategic subset.
- `Session`: the `WordleSolver` class.
- `PatternInput`: `parse_pattern_input`.

Several Python operations have their own specification function: `get_pattern`
(`Score`), `add_guess` (`AfterGuess`), the filtering in `make_guess` (`Filter`)
and the whole session (`KnowledgeOf`, `Survivors`). The loops of `get_pattern`,
the scoring argmax, the letter and pattern tallies and `parse_pattern_input` are
methods proved against such functions. The class invariant of `WordleSolver` says
the state always equals the replay of its history. No function specifies the
`solve` loop as a whole. Its invariants state:

- the history is the replay of the guesses made;
- each pattern is the true feedback;
- each guess is a suggestion of `get_best_guess` after the guesses before it.

The constraint fold is modelled exactly as the code is written. In `add_guess`,
a gray letter becomes absent only if it is not already known present *at that
moment* of the left-to-right pass. A later green or yellow for the same letter
does not undo it. `Constraints.AnswerSurvivesIff` states
exactly when the true answer is filtered out by its own feedback.
`Constraints.RejectionNeedsLaterRepeat` shows this needs a repeated letter that
is gray before it is green or yellow. `Constraints.LevelLosesHotel` is such a
case: guessing LEVEL against HOTEL gives `[0,0,0,2,2]`, and the updated
constraints then reject HOTEL.

## Model

| member | source | states |
|---|---|---|
| Pattern.Score | solver.py:20-36 | the specification of the two passes: five valid marks, green exactly where guess and answer agree |
| Pattern.GetPattern | solver.py:20-36 | the two passes produce `Score(guess, answer)`: five valid marks, green exactly where guess and answer agree |
| Pattern.ScoreShape | solver.py:20-36 | every pattern has five marks in {0,1,2}; green iff the letters agree; a yellow position disagrees and its letter occurs in the answer |
| Pattern.SelfMatch | solver.py:20-36 | a word scored against itself is all green |
| Pattern.DuplicateLetters | solver.py:20-36 | for each letter c, the number of non-gray positions holding c is min(count of c in guess, count of c in answer), so never more than the answer has |
| Pattern.PatternToText | solver.py:45-48 | one character per mark: `G` exactly at green marks, `Y` exactly at yellow ones, `_` exactly at gray ones |
| Pattern.TextInjective | solver.py:45-48 | the `_`/`Y`/`G` text form is injective: different patterns print differently |
| Constraints.Admits | solver.py:74-96 | the four checks of `matches`. A word that passes them witnesses consistent knowledge: no letter both required and absent, and no fixed letter absent or excluded at its own position |
| Constraints.WordleConstraints.Matches | solver.py:74-96 | `matches` on the object's fields: a passing word carries every fixed letter, contains no absent letter, and shows the required and absent letters are disjoint |
| Constraints.WordleConstraints.constructor | solver.py:54-58 | a new constraint object holds no knowledge |
| Constraints.WordleConstraints.AddGuess | solver.py:60-72 | the fields become `AfterGuess` of their old values: positions of `zip(guess, pattern)` are learned in order |
| Constraints.FoldEffects | solver.py:60-72 | closed form of the fold: green fixes the position and confirms its letter; yellow confirms it and excludes it at that position; gray adds the letter to absent only if it is neither known present nor confirmed earlier in the same guess |
| Constraints.OnlyGrows | solver.py:60-72 | adding a guess never forgets anything: every set and every key set only grows |
| Constraints.AnswerSurvivesIff | solver.py:60-96 | under the true feedback, `matches(answer)` stays true iff no position puts a letter of the answer into the absent set |
| Constraints.RejectionNeedsLaterRepeat | solver.py:60-96 | if the true answer is rejected, the guess repeats a letter that is gray at an earlier position and non-gray at a later one |
| Constraints.LevelLosesHotel | solver.py:60-96 | LEVEL against HOTEL scores `[0,0,0,2,2]`, and the updated constraints then reject HOTEL |
| Entropy.PatternCounts | solver.py:119-126 | the tally has one bucket per produced pattern; each bucket's count is the number of candidates giving that pattern; the counts sum to the number of candidates; no buckets for no candidates |
| Entropy.OneBucketIffSamePattern | solver.py:119-136 | there is a single bucket (zero entropy) iff the guess gives the same pattern against every candidate |
| Selection.SelectBest | solver.py:169-184 | the result is the first pool word of maximal score, provided that score exceeds -1; otherwise no guess |
| Selection.LetterFrequencies | solver.py:197-199 | each letter's count is the number of candidates containing it |
| Selection.Highest | solver.py:205-206 | one pick of the descending stable sort: the first untaken position of highest key, or none when every position is taken |
| Selection.TopByScore | solver.py:202-206 | exactly min(k, pool size) words are taken, a sub-multiset of the pool; all of the pool is taken when fewer than k are; no copy of a word left out scores above a word taken |
| Selection.FirstBestOverElements | solver.py:169-184 | the first best word of the pool is also a best word of the pool's set of words, and no word of that set beats -1 when nothing was found |
| Selection.StrategicSubset | solver.py:186-208 | the subset is exactly the candidates, the starter words in the pool, and a pool sample by letter-frequency score. The sample is min(k, pool size) pool words drawn with multiplicity, and no copy left out scores above a word taken. The subset's size is at most candidates + 8 + k |
| Selection.SetToSeq | solver.py:208 | `list(subset)` has exactly the subset's elements, each once: as many entries as the set has elements, no two equal |
| Session.KnowledgeOf | solver.py:210-217 | the knowledge after a history is the fold of its guesses; every position it records is in 0..4 |
| Session.Filter | solver.py:220-223 | keeps, in order, a subsequence of the words; every word kept matches; every word that matches is kept |
| Session.SurvivorsShrink | solver.py:210-225 | more guesses only remove candidates: the later list is a subsequence of the earlier one |
| Session.SurvivorsAdmitted | solver.py:220-223 | every remaining candidate passes all accumulated constraints |
| Session.AnswerRetainedIff | solver.py:210-225 | under true feedback, the answer remains a candidate iff no guess in the history, judged against the knowledge before it, made one of the answer's letters absent |
| Session.Normalize | solver.py:108-109 | every five-letter input word appears upper-cased; every output word comes from one |
| Session.WordleSolver.constructor | solver.py:102-112 | the word lists are normalized; the answer list defaults to the word list when missing or empty; no history; every answer is a candidate |
| Session.WordleSolver.Reset | solver.py:268-272 | fresh constraints, every answer a candidate again, empty history; word lists unchanged |
| Session.WordleSolver.MakeGuess | solver.py:210-225 | the upper-cased guess and pattern are appended to the history; the constraints fold them; candidates shrink to exactly those that match |
| Session.WordleSolver.GetBestGuess | solver.py:138-184 | no candidates raise IndexError; one or two return the first with score 0; otherwise the first best over the base pool. When the base pool exceeds the limit, the pool scanned has exactly the elements of a strategic subset of the base pool, with its top-k sample; at most candidates + 8 + limit words are scored; the result is a best word of it, or nothing when no word scores above -1 |
| Session.WordleSolver.SuggestDefault | solver.py:138-184 | `get_best_guess()` with default arguments: IndexError exactly when no candidate remains; otherwise a suggestion, or nothing to suggest from the unrestricted word list |
| Session.ReplayStep | solver.py:210-225 | one more history record is one more constraint fold and one more filter pass |
| Session.RoundStep | solver.py:227-266 | a round of `solve` keeps the run's invariants: the record list stays well formed, honest, made of suggestions, and unsolved before an all-green pattern |
| Session.WordleSolver.Solve | solver.py:227-266 | at most max_guesses rounds; each pattern is the true pattern against the answer; each guess is what `get_best_guess()` suggests after the guesses before it: the first candidate when at most two remain, otherwise a best word of the word list or of a strategic subset of it; only the last pattern can be all green; stopping early means solved. A failure happens only at the start of a round the source runs: fewer than max_guesses guesses made, none of them all green. It is IndexError exactly when no candidate remains, and otherwise means no word of the pool scored above -1 |
| PatternInput.StripLeft | main.py:273 | removes exactly the maximal run of leading whitespace |
| PatternInput.StripRight | main.py:273 | removes exactly the maximal run of trailing whitespace |
| PatternInput.ParsePattern | main.py:273-289 | a parse is always a valid five-mark pattern; input that is not five characters after strip is rejected |
| PatternInput.ParsePatternInput | main.py:267-289 | the loop with early exits returns exactly `ParsePattern`: None on a wrong length or an unknown character |
| PatternInput.ParseRoundTrip | main.py:267-289 | a pattern's `_`/`Y`/`G` text form parses back to that pattern |
| PatternInput.SurroundingSpaceIgnored | main.py:273 | whitespace before and after the typed pattern does not change the parse |
| PatternInput.CaseIgnored | main.py:273 | upper-casing the input first does not change the parse, so g, y and b are accepted |

## Left out

- The entropy value: `-sum(p * log2 p)` and the `+0.001` tie-break bonus are floating point. `GetBestGuess` and `Solve` take the score as a function parameter, and only the integer bucket tally (`Entropy.PatternCounts`) is modelled.
- Selection.TopByScore: does not fix the order of equal-scoring words in `sorted(..., reverse=True)`. The method picks the first highest position each time, but its contract only states the top-k property over multisets. Which of several tied words make the cut is not pinned down.
- Selection.StrategicSubset: inherits the open tie order of `TopByScore` for its sample.
- Selection.SetToSeq: `list(set)` order is Python's hash order; the model allows any order, so a pool built that way may be scanned in any order.
- Words.Upper: `str.upper` is modelled for ASCII letters only. Unicode case mapping, including ones that change length, is not modelled.
- Pattern.PatternToText: requires every mark to be 0, 1 or 2. On any other value `text_map[p]` raises KeyError. Every pattern comes from `get_pattern` or the input parser, so no caller reaches that case.
- Pattern.GetPattern: requires two five-letter words. A guess or answer shorter than five letters makes the source raise IndexError. A longer answer keeps all its letters in `answer_letters`, so a sixth letter can turn a guess letter yellow (`ABCDE` against `XXXXXA` marks `A` yellow). A longer guess has only its first five letters scored.
- Constraints.WordleConstraints.AddGuess: requires a five-mark pattern. With a longer pattern and guess the source records positions that `matches` would then index past the end of the word.
- Session.WordleSolver.MakeGuess: requires a five-mark pattern, because it passes the pattern to `AddGuess`.
- Session.WordleSolver.Solve: requires a five-letter answer, for the same reason as `get_pattern`. The verbose printing is not modelled.
- Session.WordleSolver.GetBestGuess: `max_words_to_check` is a natural number. A negative limit, which makes Python's slice count from the end, is not modelled.
- Emoji rendering (`pattern_to_string`), word-file loading (`load_word_list`), the analyser module and the menus and game loops of main.py are not part of this model.
