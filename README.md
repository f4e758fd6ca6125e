# mutsolver core in Dafny

This project is a model of the logic core of mutsolver, a solver for
Wordle/SUTOM-style word games, with proofs about that model. The model
covers six things:

- **Feedback derivation.** A guess compared with the hidden answer gets one
  state per letter: `Yes` for correctly placed, `Meh` for misplaced, `No`
  for absent.
- **Evidence evaluation.** One attempt (a guess plus its feedback) gives a
  verdict of `Yes`, `No` or `Unknown` for each kind of test about the
  hidden word. Tests that reach outside the word are errors.
- **The test vocabulary.** This covers what each test means for a plain
  word, the tests generated from one word, and the tests a whole
  dictionary keeps.
- **The answer algebra.** Two verdicts merge partially: `Yes` merged with
  `No` is an error. Whole verdict vectors merge element by element.
- **The game.** A game holds a dictionary and an append-only list of
  attempts. It also has a duplicate copy of the feedback derivation, and
  the merged verdicts its attempts give a test suite.
- **Dictionary validation.** Both word lists must share one word size,
  hold no duplicates, and use only `'A'..'Z'`.

The modules are:

| module | file | source |
|---|---|---|
| `Types` | `types.dfy` | the plain data types (`State`, `Answer`, `Test`, `Error`, `DictError`, `Options`) |
| `Dicts` | `dicts.dfy` | `src/dict.rs` |
| `Tests` | `tests.dfy` | `src/tests.rs` |
| `Answers` | `answers.dfy` | `src/answers.rs` |
| `Attempts` | `attempts.dfy` | `src/attempt.rs` |
| `Games` | `games.dfy` | `src/game.rs`, plus the known-answers fold |

Words are `seq<char>`. The counts carried by tests are an unsigned 8-bit
newtype `u8`, as in the source.

The source iterates hash maps in several places. The model makes each of
those iterations an unspecified choice (`:|`), and each contract about it
holds whatever order the choice takes. The same goes for the parallel
`find_any` searches. The imperative parts keep their imperative form:

- `from_answer` keeps its three passes over a `states` array and its count
  map.
- `for_word`, `for_dict` and `check_duplicate` keep their loops over maps
  and lists.
- `Game` is a class whose `Add` method appends to its `attempts` field.

## Model

| member | source | states |
|---|---|---|
| Dicts.Len | src/dict.rs:64-66 | the number of words is the length of answers followed by allowed words |
| Dicts.IsEmpty | src/dict.rs:68-70 | true exactly when both word lists are empty |
| Dicts.WordSize | src/dict.rs:72-74 | in a dictionary whose sizes are consistent, every word has this length |
| Dicts.FindUnauthorized | src/dict.rs:141-144 | none exactly when every character is in 'A'..'Z'; otherwise the first character outside that range |
| Dicts.CheckSize | src/dict.rs:102-110 | reports an error exactly when some word's length differs from the size; the error names such a word, its length and the size |
| Dicts.CheckDuplicate | src/dict.rs:113-132 | counts words in a map; reports an error exactly when some word occurs twice or more across both lists, with its count |
| Dicts.CheckCharacters | src/dict.rs:135-147 | reports an error exactly when some word has a character outside 'A'..'Z', naming that word and its first such character |
| Dicts.Check | src/dict.rs:96-99 | no error exactly when the dictionary is well formed; size errors take priority over duplicates, and duplicates over characters |
| Dicts.New | src/dict.rs:25-39 | no answers gives MissingAnswers; otherwise the size is the first answer's length, and the result is Ok exactly when that dictionary is well formed |
| Dicts.WellFormedWords | src/dict.rs:90-95 | a well-formed dictionary has every word of its size, made of 'A'..'Z', and no two positions holding one word |
| Types.DefaultOptions | src/options.rs:9-14 | the default options search affixes of up to four letters and keep tests matched by more than one percent of the words |
| Tests.Run | src/tests.rs:98-112 | an out-of-range position is false; prefix and suffix tests hold exactly when the affix fits and the aligned letters agree |
| Tests.HasAtLeastZero | src/tests.rs:103-105 | an at-least-zero test holds of every word |
| Tests.GeneratedHolds | src/tests.rs:61-95 | every test generated from a word holds of that word |
| Tests.CountLetters | src/tests.rs:71-76 | the count map has exactly the word's letters, each with its number of occurrences |
| Tests.PushLetterGroup | src/tests.rs:79-84 | appends the at-most test with the exact count, then the at-least tests from 1 to that count |
| Tests.LetterGroupFacts | src/tests.rs:80-83 | one letter's group is its exact at-most test plus at-least tests 1..count, with no duplicates and count at-least tests |
| Tests.AffixTestsFacts | src/tests.rs:86-91 | the affix tests are exactly the prefixes and suffixes of lengths 2..xfix, with no duplicates and no at-least tests |
| Tests.ForWord | src/tests.rs:61-95 | a test is in the result exactly when it is generated by the word; no duplicates; the result starts with At(w[i], i) for each i; it has exactly \|w\| at-least tests |
| Tests.PushCountTests | src/tests.rs:78-84 | after the letter groups, in map order, the list holds exactly the count tests of the map's letters, with no duplicates, and \|w\| more at-least tests |
| Tests.PushAffixes | src/tests.rs:86-91 | appends the prefix and the suffix of each length 2..xfix, in that order |
| Tests.MinCount | src/tests.rs:49 | the keep bound is at least 2 |
| Tests.WordsWithBound | src/tests.rs:31-39 | no test is generated by more words than the dictionary has |
| Tests.KeptNeedsLargeDict | src/tests.rs:48-56 | a test can be kept only from a dictionary of at least 2 * minCount + 2 words |
| Tests.KeptSplits | src/tests.rs:53-56 | a kept test holds of more than minCount words of the dictionary |
| Tests.GeneratedSatisfied | src/tests.rs:33-37 | the words generating a test are no more than the words on which it holds |
| Tests.Tally | src/tests.rs:34-37 | each test of a word's list gains one in the count map, and no other test changes |
| Tests.ForDict | src/tests.rs:30-58 | a test is kept exactly when more than minCount and fewer than wordCount - minCount words generate it; no duplicates |
| Answers.Add | src/answers.rs:14-32 | fails exactly on Yes with No, in either order, naming both operands in order; otherwise Unknown gives way to the other side |
| Answers.AddUnknownIdentity | src/answers.rs:35-36 | Unknown is a two-sided identity of merging |
| Answers.AddIdempotent | src/answers.rs:35 | a verdict merged with itself is itself |
| Answers.AddCommutative | src/answers.rs:17-31 | one order fails exactly when the other does, and both agree on success |
| Answers.AddAssociative | src/answers.rs:17-31 | both groupings of three verdicts fail together and agree on success |
| Answers.OfWord | src/answers.rs:60-68 | one verdict per test, never Unknown, and Yes exactly when the test holds of the word |
| Answers.OfDict | src/answers.rs:71-79 | one verdict vector per word of answers followed by allowed words, in order |
| Answers.OfWords | src/answers.rs:74-76 | one verdict vector per word, in order |
| Answers.AddAll | src/answers.rs:82-92 | merges over the positions both vectors have; fails exactly when some position conflicts, with the error of the leftmost conflict |
| Attempts.FromAnswer | src/attempt.rs:14-60 | InvalidSize(\|answer\|, \|attempt\|, attempt) exactly when the sizes differ; otherwise Yes exactly where the letters agree, and Meh exactly where they differ and the guessed letter is one of the answer's unmatched letters |
| Attempts.OccurrencesSplit | src/attempt.rs:92-98 | the occurrences of a letter are the valid ones plus the ruled-out ones; none is ruled out exactly when no copy is marked No |
| Attempts.Answers | src/attempt.rs:62-172 | an error exactly when the test reaches beyond the word, naming the test and word; at-most is Unknown exactly when no copy of the letter is marked No |
| Attempts.AnswersMeaning | src/attempt.rs:65-170 | a position is Yes only if placed and equal, and Unknown exactly if unplaced and different; at-least is Unknown exactly when the guess has too few copies; an affix is Yes only if placed letters spell it |
| Attempts.FeedbackSelf | src/attempt.rs:25-32 | guessing the answer gives Yes at every position |
| Attempts.AnswersSelf | src/attempt.rs:62-172 | an attempt that guessed the answer decides every position and affix test in range, and says Yes exactly when the test holds of the answer |
| Attempts.AnswersSelfAt | src/attempt.rs:65-89 | an attempt that guessed the answer says Yes to each of its own letters at its own position |
| Attempts.AnswersSound | src/attempt.rs:14-172 | for an attempt derived from a hidden answer, a verdict of No on any test means the test fails of the answer, and a Yes on any test but at-least means it holds |
| Attempts.CountsAsWritten | src/attempt.rs:90-125 | under the as-written feedback, an at-most Yes is true of the hidden answer, and an at-least or at-most No is true as well |
| Attempts.ValidFromFeedback | src/attempt.rs:25-57 | when a letter has no unmatched copy in the answer, the guess's copies of it not marked No are exactly the answer's copies |
| Attempts.AffixAnswer | src/attempt.rs:129-168 | Yes exactly when the letters spell the affix and every aligned position is placed; No exactly when, short of that, some position's placement disagrees with its letter matching the affix; Unknown otherwise |
| Attempts.AffixSound | src/attempt.rs:126-170 | over aligned slices whose Yes marks agreement with the truth, an affix Yes means the truth spells the affix, and No that it does not |
| Attempts.FeedbackOnlyYes | tests/attempts.rs:5-9 | AZCZ against ABCD gives Yes, No, Yes, No |
| Attempts.FeedbackMixed | tests/attempts.rs:12-16 | RIVIERES against REVOLVER gives Yes, No, Yes, No, Meh, Meh, Yes, No |
| Attempts.AtExamples | tests/attempts.rs:29-47 | the position verdicts of ABCD with Yes, Meh, No, Meh, including the out-of-range error |
| Attempts.AtLeastExamples | tests/attempts.rs:50-80 | the at-least verdicts of ABBCCC with Yes, Yes, Meh, No, Yes, Meh |
| Attempts.AtMostExamples | tests/attempts.rs:83-121 | the at-most verdicts of ABBCCCD with Yes, Yes, No, No, Yes, Meh, No that decide or leave open the tighter bounds |
| Attempts.AtMostExamplesLoose | tests/attempts.rs:93-112 | the looser at-most bounds of the same attempt, two B's and three or four C's, are all Yes |
| Attempts.PrefixExamplesPlaced | tests/attempts.rs:124-133 | the prefix verdicts of a fully placed ABCDE |
| Attempts.PrefixExamplesMisplaced | tests/attempts.rs:135-147 | the prefix verdicts of ABCDE with a misplaced second letter, including the error for an over-long prefix |
| Attempts.SuffixExamplesPlaced | tests/attempts.rs:152-160 | a fully placed ABCDE has suffix CDE and not ZDE |
| Attempts.SuffixExamplesPlacedInner | tests/attempts.rs:161-168 | a fully placed ABCDE has neither suffix CZE nor CDZ |
| Attempts.SuffixExamplesMisplaced | tests/attempts.rs:170-182 | the suffix verdicts of ABCDE with a misplaced fourth letter, including the error for an over-long suffix |
| Attempts.MehOverMarking | src/attempt.rs:53-56 | XBBB against BACD marks all three B's Meh, so the at-least-three-B verdict is Yes although BACD has one B |
| Attempts.CountUnmatched | src/attempt.rs:34-43 | the count map holds, for each letter, the answer's copies at positions the guess does not match; absent letters have none |
| Attempts.FromAnswerCounted | src/attempt.rs:45-57 | the same size error; otherwise the counted feedback, where a missed letter is Meh only while its counter is positive |
| Attempts.CountersStep | src/attempt.rs:48-56 | marking one letter Meh exactly while its counter is positive, then decrementing, gives its counted feedback and keeps the counters right |
| Attempts.MarkCounted | src/attempt.rs:48-57 | the third pass leaves the states array equal to the counted feedback |
| Attempts.CountedValidOccurrences | src/attempt.rs:45-47 | with counted feedback, the copies of a letter not marked No are the minimum of its counts in the guess and in the answer |
| Attempts.CountedCountsSound | src/attempt.rs:90-125 | with counted feedback, at-least and at-most verdicts of Yes and No are true of the hidden answer |
| Attempts.CountedSound | src/attempt.rs:62-172 | with counted feedback, every decided verdict is true of the hidden answer |
| Attempts.CountedExample | src/attempt.rs:45-56 | counted feedback of XBBB against BACD marks one B Meh, and decides at-least-three-B No |
| Games.GameStateRenaming | src/game.rs:23-27 | the file's upper-case states are the same three values as the feedback states |
| Games.ToGameStates | src/game.rs:23-28 | renaming keeps the length and each state |
| Games.FromAnswer | src/game.rs:34-77 | GameError.InvalidSize exactly when the sizes differ; YES exactly where the letters agree; MEH exactly where they differ and the letter is one of the answer's unmatched letters; the states are the renamed feedback of attempt.rs |
| Games.Verdicts | src/answers.rs:38-39 | one verdict per attempt on the test, in attempt order |
| Games.KnownAnswerConsensus | src/answers.rs:38-41 | a game's merged verdict on a test fails exactly when some attempt cannot answer it or two attempts give opposite verdicts; it is Unknown exactly when every attempt says Unknown, and otherwise some attempt's own verdict |
| Games.MergeConsensus | src/answers.rs:34-41 | the fold fails exactly when some verdict is an error or two contradict; otherwise it is the one decided verdict, or Unknown when there is none |
| Games.KnownAnswerSound | src/answers.rs:38-41 | attempts derived from one hidden answer never contradict on a position, at-most or affix test in range; a merged No is always the test's truth on the answer, and so is a merged Yes on any test but at-least |
| Games.KnownAnswerCountedSound | src/attempt.rs:45-47 | with counted feedback, attempts against one hidden answer never contradict on any test in range, count tests included, and a decided merged verdict is the test's truth |
| Games.Collect | src/answers.rs:38-41 | all the answers in order exactly when none is an error; otherwise the first error |
| Games.KnownAnswers | src/answers.rs:38-41 | Ok exactly when every test's fold succeeds; one merged verdict per test of the suite, in order |
| Games.KnownAnswersNoAttempts | tests/game.rs:26-31 | a game without attempts knows nothing: all Unknown |
| Games.KnownAnswerAppend | src/answers.rs:38-39 | adding an attempt merges its verdict into the verdict of the earlier attempts |
| Games.KnownAnswersStep | src/answers.rs:38-39 | a new attempt's verdict row merged into the earlier merged verdicts gives the new merged verdicts |
| Games.FixtureFeedback | tests/game.rs:33-47 | the feedback of ABOUTI, ABSOLU and ABONDE against ABONDE |
| Games.RowAbouti | tests/game.rs:33-37 | ABOUTI's verdicts on the game suite |
| Games.RowAbsolu | tests/game.rs:40-44 | ABSOLU's verdicts on the game suite |
| Games.RowAbonde | tests/game.rs:47-51 | ABONDE's verdicts on the game suite |
| Games.KnownAnswersAfterAbouti | tests/game.rs:33-38 | Yes, Yes, No, Unknown, Unknown after ABOUTI |
| Games.KnownAnswersAfterAbsolu | tests/game.rs:40-45 | Yes, Yes, No, Unknown, No after ABSOLU |
| Games.KnownAnswersAfterAbonde | tests/game.rs:47-52 | Yes, Yes, No, Yes, No after ABONDE |
| Games.FixtureAttemptsFeedback | tests/game.rs:33-47 | the game's attempts are the three guesses with their feedback against ABONDE |
| Games.FixtureKnownAnswers | tests/game.rs:21-53 | after all three attempts the merged verdicts are Yes, Yes, No, Yes, No |
| Games.Game.constructor | src/game.rs:86-91 | a new game stores the dictionary and has no attempts |
| Games.Game.Add | src/game.rs:93-95 | appends the attempt at the end; the dictionary is unchanged |
| Games.Game.GetDict | src/game.rs:97-99 | returns the dictionary and changes nothing |
| Games.Game.GetAttempts | src/game.rs:101-103 | returns the attempts and changes nothing |
| Games.Game.KnownAnswersOf | src/answers.rs:38-41 | the merged verdicts of the game's current attempts on the suite |
| Games.DeriveAttempt | tests/game.rs:33 | deriving an attempt of the right size succeeds with its feedback |
| Games.KnownAnswersScenario | tests/game.rs:21-53 | a game fed ABOUTI, ABSOLU and ABONDE against ABONDE reads all Unknown, then the three expected verdict vectors |

## Left out

- The rayon parallelism in `src/dict.rs`, `src/tests.rs` and `src/answers.rs` is modelled as sequential iteration. Its reductions are additions of counts, which do not depend on order. `find_any` is an unspecified choice.
- `Dict::from_file` and the serde derives are file and JSON I/O.
- The `Display` implementations only format strings.
- `src/main.rs` is a printing demo. It uses a `words` field that the dictionary lacks.
- `src/rules.rs` is an unused registry, and `src/lib.rs` is module wiring only.
- `lib.rs` exports `Guess`, but no source file defines it. There is no guess optimiser to model.
- The prefix/suffix post-processing of `src/answers.rs:42-45` is an unimplemented plan.
- `src/game.rs` has no `known_answers`.
  - The `Games.KnownAnswers` fold is built from the comment at `src/answers.rs:38-41` and the game tests.
  - When several tests fail, which error is reported is this model's own choice: the first failing test, and within it the first failing attempt.
  - The tests build games with `Game::new(&dict, &options)` and `Game::new_with_tests`, which the file does not define. The model's constructor takes only the dictionary, as `src/game.rs:86-91` does, and the suite is passed to `KnownAnswersOf`.
- Games.FromAnswer: the duplicate feedback derivation of `src/game.rs:34-77` takes the same steps as the `src/attempt.rs` one. The model therefore runs `Attempts.FromAnswer` and renames the result, rather than repeating its loops. Its contract states the file's own behaviour in full.
- Byte lengths and character counts coincide only for ASCII. The source mixes them in `src/dict.rs:29`, `src/attempt.rs:127,145` and `src/tests.rs:87-90`. The model counts characters throughout.
  - A non-ASCII first answer can make the source report an inconsistent size where the model reports another error.
  - Any such word is rejected either way.
- Tests.MinCount: the keep ratio is a `real`, and `as usize` is modelled as the floor of a non-negative product. The rounding of `f32` arithmetic is not modelled.
- Tests.ForDict: ForDict requires `minCount <= wordCount`, because `word_count - min_count` is an unsigned subtraction that would underflow.
- Tests.ForWord: ForWord requires every letter to occur fewer than 255 times, because the `u8` counter and `count + 1` would overflow. It also requires the affix bound to fit in the word, because `word[..p]` would panic otherwise.
- Attempts.Answers: Answers requires one state per letter. This is the length invariant of `Attempt` that `from_answer` always establishes (`src/attempt.rs:25,59`); the unwrap at `src/attempt.rs:72` reads a state only for `At`.
- Attempts.AnswersSound: AnswersSound does not promise that an at-least Yes is true. Under the feedback rule as written, extra copies of a letter can be marked Meh, so an at-least Yes can be false; see Findings and Attempts.MehOverMarking. Every No verdict and every at-most verdict is sound.
- Games.Game: the game stores `src/attempt.rs`'s `Attempt` rather than `src/game.rs`'s own `Attempt` with upper-case states (`src/game.rs:30-31,80-83,93`). The game tests add `attempt::Attempt` values (`tests/game.rs:17,33`), and the known-answers fold needs `Attempt::answers`, which only that type has. `Games.FromAnswer` models the file's own derivation, but its result is not what `Add` takes.
- Some of the repository's tests do not match the source's current API: `tests/answers.rs`, `tests/dict.rs`, and the `Game` constructors in `tests/game.rs`. Only their intent is followed.

## Findings

The comment at `src/attempt.rs:45-47` describes the third pass. A misplaced letter should be marked Meh only while the answer's counter for it is non-null, and the counter is then decremented. The code never checks the counter.

| source | as written | input that shows it | evidently intended | confidence | as-written member | corrected member |
|---|---|---|---|---|---|---|
| src/attempt.rs:53-56 | every missed letter that has an entry in the count map is marked Meh, even after its counter reaches zero | guess XBBB, answer BACD: all three B's are Meh, so the attempt answers Yes to "at least three B's" although BACD has one | mark Meh only while the counter is positive, so that the copies not marked No are min(guess count, answer count) and count verdicts are sound | not executed | Attempts.MehOverMarking | Attempts.FromAnswerCounted, Attempts.CountedValidOccurrences, Attempts.CountedSound |

The same rule appears in `src/game.rs:70-73`. `Attempts.FromAnswer` and `Games.FromAnswer` model the code as written, and the worked examples use their feedback. The corrected derivation carries its soundness up to the game: `Games.KnownAnswerCountedSound` shows that merged verdicts from counted feedback never conflict and are true of the hidden answer for every kind of test. `Games.KnownAnswerSound` shows that under the as-written rule merged verdicts never conflict on position, at-most and affix tests, that every merged No is true, and that every merged Yes is true except on at-least tests.
