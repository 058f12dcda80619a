# QuizAgent question store and quiz pipeline in Dafny

This project models the deterministic core of QuizAgent, a math quiz generator.
The core has two parts:

- **The question bank** (`question_database.py`). The `questions` table is a
  sequence of rows in insertion (id) order. Questions are added
  insert-if-absent under the key (grade, board, topic, question text). Valid
  questions are counted and retrieved per difficulty. A quiz is assembled from
  the bank by a difficulty split, either all-or-nothing or as a partial set
  plus per-level shortfalls. A reported question is soft-deleted: its valid
  flag goes to 0 and it is stamped. Invalid questions are listed and counted
  for a quality report.
- **The generation and scoring logic** (`QuizAgent.py`). This covers splitting
  the question count by difficulty percentages, extracting JSON from a
  fenced model reply, wrapping a single object into a list, normalising
  letter answers to indices, truncating to the requested count and turning
  every failure into `[]`. It also covers the `SCORING` table, the points of
  one answer and the total possible score.

Modules, one per file:

- `Wrappers`: `Option`.
- `Text`: the Python string operations the pipeline relies on (`in`, `split`,
  `strip`, ASCII `upper`, `int(str)`).
- `Json`: parsed JSON values.
- `Distribution`: difficulty levels and the count split.
- `Sampling`: `ORDER BY RANDOM() LIMIT k`.
- `Sorting`: `ORDER BY … DESC`.
- `QuestionStore`: the table and its operations.
- `Planner`: the two quiz-assembly functions.
- `Generation`: reply processing.
- `Scoring`: points and totals.

Everything is a pure function, and the table is threaded through the
functions. The things a program would get from its environment are
parameters:

- the clock behind `CURRENT_TIMESTAMP` (`now`);
- the random order of `ORDER BY RANDOM()` (a sequence of choices, consumed
  by drawing without replacement);
- the JSON parser (`decode`);
- the outcome of the language-model call (`Reply`);
- whether the API key is set.

`Sampling.DrawReachesEverySample` shows that the choices can produce every
ordered sample, so this covers exactly the "any selection of the right size"
reading of random retrieval.

The test at `test_e2e.py:162-188` expects
`get_questions_by_difficulty_distribution` to return the 3 questions in stock
when 10 are requested. The code returns `[]` whenever a level with a positive
target is short (`question_database.py:246-248`). The model follows the code:
see `Planner.InsufficientScenario`.

## Model

| member | source | states |
|---|---|---|
| Distribution.ParseDifficulty | question_database.py:31 | the `difficulty` CHECK admits a string exactly when it is "Easy", "Medium" or "Hard", and the admitted level's stored name is that string |
| Distribution.ParseName | question_database.py:31 | every level's stored name reads back as the same level |
| Distribution.TruncDiv100 | QuizAgent.py:48-49 | `int(a / 100)` truncates toward zero: floor for non-negative a, ceiling for negative a |
| Distribution.Targets | QuizAgent.py:48-50 | the three targets always add up to the requested count; Easy and Medium are the floors of n·pct/100 for non-negative inputs |
| Distribution.HardNonNegative | QuizAgent.py:48-50 | Hard (the remainder) is never negative when n ≥ 0 and the Easy and Medium percentages are non-negative and sum to at most 100 |
| Distribution.HardGetsRemainder | QuizAgent.py:48-50 | with percentages summing to 100, Hard gets at least its own truncated share and at most two more |
| Distribution.UiTargetsInRange | QuizAgent.py:175-200 | every request the sidebar lets through (1..50 questions, sliders 0..100 summing to 100, non-empty topic) yields three targets in 0..n that add up to n |
| Text.Find | QuizAgent.py:95-98 | the first occurrence at or after a start index; `None` only when there is none |
| Text.Split | QuizAgent.py:96-98 | `str.split`: joining the pieces with the separator gives back the text; no piece contains the separator; there are at least two pieces exactly when the separator occurs; the first piece ends at the first occurrence |
| Text.Strip | QuizAgent.py:96-98 | `str.strip`: the result is an infix with only whitespace around it, it neither starts nor ends with whitespace, and it is empty exactly when the text is all whitespace |
| Text.ParseInt | question_database.py:107 | `int(str)` on a single digit gives its value; it fails on blank text and on any text holding a character that is not a digit, whitespace or a sign, so a letter answer such as "B" makes the record rejected |
| Text.ParseIntPadded | question_database.py:107 | digits with an optional `+` or `-` and whitespace around them read as their signed decimal value (" +02 " gives 2, "-3" gives -3) |
| Text.Upper | QuizAgent.py:111 | upper-casing keeps the length and maps each ASCII lower-case letter to its capital, leaving every other character as it is |
| Json.ToInt | question_database.py:107 | `int()` on a decoded value: a number is itself, a boolean is 0 or 1, a string is parsed as by `int(str)`, and null, lists and objects fail |
| Sampling.Draw | question_database.py:149-157 | random retrieval returns min(k, pool size) rows, all taken from the pool without repetition (a sub-multiset) |
| Sampling.DrawReachesEverySample | question_database.py:149-157 | every ordered selection of pool rows is the outcome of some random choices |
| Sampling.DrawDistinct | question_database.py:149-157 | a draw from a pool without duplicates has none |
| Sorting.SortDesc | question_database.py:396 | `ORDER BY … DESC` yields a permutation of its input with non-increasing keys |
| QuestionStore.EmptyWellFormed | question_database.py:25-40 | the freshly created table satisfies the table invariant: unique keys, increasing ids, the column CHECKs, and the link between the valid flag and the report time |
| QuestionStore.Select | question_database.py:155 | a WHERE clause keeps exactly the matching rows, in table order, as a sub-multiset, and keeps ids increasing |
| QuestionStore.ToCandidate | question_database.py:94-107 | a record is stored only if it is an object whose difficulty is one of the three names, whose question is text and whose `int(correct_answer)` lies in 0..3; the stored question is the record's text ("" when absent), the stored difficulty is the record's level (Easy when absent), the stored answer is `int()` of the record's answer (0 when absent; an integer answer is kept as is), and options default to `[]` |
| QuestionStore.MissingFieldsDefault | question_database.py:104-107 | a record without difficulty, question and answer is stored as Easy with text "" and answer 0 |
| QuestionStore.ConstraintViolationsRejected | question_database.py:31-34 | a record whose difficulty is not a level name, or whose answer is an integer outside 0..3, is not stored |
| QuestionStore.SaveOne | question_database.py:96-113 | one INSERT OR IGNORE adds a row exactly when the record is acceptable and its key is absent; otherwise nothing changes; the invariant is preserved |
| QuestionStore.AppendWellFormed | question_database.py:27-38 | appending a row with a fresh key and the next id keeps the table invariant |
| QuestionStore.SaveQuestions | question_database.py:88-122 | saved + skipped = number of records; the table grows by exactly `saved` rows appended after the old ones; new rows carry the call's grade, board and topic, are valid and unreported; every key present before stays; every acceptable record's key is present after; every new row holds exactly the difficulty, question, options and answer of an accepted record of the batch; a batch with no acceptable record saves 0; the invariant is preserved (the order of the new rows and the handling of repeated keys follow from SaveConcat and FirstDuplicateKept) |
| QuestionStore.SaveConcat | question_database.py:91-116 | saving a batch is saving its first part and then its second part into the resulting table, with the saved and skipped counts added: records are inserted one after another in batch order, so new rows follow the batch with increasing ids |
| QuestionStore.SaveSingle | question_database.py:96-113 | a one-record batch is exactly one INSERT OR IGNORE, counted as saved when it added a row and as skipped otherwise |
| QuestionStore.FirstDuplicateKept | question_database.py:96-113 | of two acceptable records with the same question in one batch, the first is stored and the second is skipped, whatever its other fields hold |
| QuestionStore.SaveAllPresent | question_database.py:96-113 | a batch whose acceptable records are all stored already leaves the table unchanged and is skipped entirely |
| QuestionStore.SaveTwiceSavesNothing | question_database.py:96-113 | saving the same batch again saves 0 and skips all |
| QuestionStore.DuplicateKeySkipped | question_database.py:38 | a record whose key is stored, in a valid or an invalid row, is skipped and changes nothing |
| QuestionStore.GetQuestions | question_database.py:149-172 | only valid rows matching grade, board, topic and difficulty; all of them for a missing, zero or negative limit, otherwise min(limit, available); by-id order gives the first rows in insertion order; never a row twice in a well-formed table |
| QuestionStore.CountQuestions | question_database.py:174-211 | the count is the number of valid rows with the given grade, board and topic (and difficulty, when one is given and non-empty), as an independent row-by-row tally |
| QuestionStore.CountIsRetrievalSize | question_database.py:195-200 | `count_questions` with a difficulty equals the number of rows unlimited retrieval returns |
| QuestionStore.UnknownDifficultyCountsNothing | question_database.py:195-200 | a difficulty that is not a level name counts 0 |
| QuestionStore.CountIsSumOfLevels | question_database.py:195-206 | with no difficulty the count is the sum of the three per-level counts |
| QuestionStore.MarkInvalid | question_database.py:346-356 | returns true exactly when a valid row has the exact key; no row is removed or re-keyed, no row becomes valid, invalid rows are untouched, nothing changes on false, and the invariant is preserved |
| QuestionStore.MarkInvalidChangesOneRow | question_database.py:346-350 | in a well-formed table a successful call flips exactly the one target row to invalid with report time `now` |
| QuestionStore.MarkInvalidIdempotent | question_database.py:346-356 | a repeated report of the same question returns false and changes nothing |
| QuestionStore.MarkInvalidCounts | question_database.py:346-350 | every filtered count changes only by what the one flipped row contributes |
| QuestionStore.MarkInvalidMovesQuestion | question_database.py:346-356 | after a successful report the valid count for its grade, board and topic drops by one and the invalid count rises by one |
| QuestionStore.InvalidReport | question_database.py:377-417 | exactly the invalid rows passing the truthy filters (grade 0 or empty text means no filter), as a permutation sorted by report time, newest first |
| QuestionStore.CountInvalid | question_database.py:419-462 | the invalid count is the number of invalid rows passing the truthy filters, as an independent row-by-row tally |
| QuestionStore.CountInvalidIsReportLength | question_database.py:438-462 | the invalid count equals the report's length for every choice of filters |
| QuestionStore.NewestReportFirst | question_database.py:346-350 | with a clock that does not run backwards, a row reported at `now` heads the report for the reported question's grade, board and topic; it may be an earlier report with the same stamp |
| QuestionStore.JustReportedHeadsReport | question_database.py:346-350 | when every earlier report is stamped strictly before `now`, the report for the question's grade, board and topic starts with exactly the row just invalidated, stamped `now` |
| Planner.Fetch | question_database.py:291-320 | one level with a positive target: the whole target from stock when enough, else the whole stock plus the shortfall; rows found + missing = max(0, target) |
| Planner.PartialAndMissing | question_database.py:286-322 | per level, the rows of that level plus the missing count equal max(0, target); missing is 0 exactly when stock covers the target; a short level gives all its stock; rows come from the valid stock for the grade, board and topic, Easy before Medium before Hard, without repetition |
| Planner.ByDistribution | question_database.py:235-262 | `[]` when a positive target exceeds its stock; otherwise exactly max(0, target) rows per level, in level order, valid and without repetition |
| Planner.ByDistributionIsPartial | question_database.py:235-322 | stock suffices exactly when the planner reports no shortfall, and then both retrievals return the same rows |
| Planner.FoundPlusMissing | question_database.py:286-322 | rows found plus the shortfalls equal the requested count when the percentages leave Hard non-negative |
| Planner.ByDistributionTotal | question_database.py:235-262 | with enough stock the all-or-nothing retrieval returns exactly n questions |
| Planner.PartialScenario | question_database.py:286-322 | 10 questions at 50/30/20 with 5 Easy, 3 Medium, 0 Hard in stock: 8 rows (5 Easy, 3 Medium), missing (0, 0, 2) |
| Planner.FullScenario | test_e2e.py:120-158 | 10 questions at 50/30/20 with 5/3/2 in stock: 10 rows, 5 Easy, 3 Medium, 2 Hard |
| Planner.InsufficientScenario | question_database.py:246-248 | 10 questions at 50/30/20 with 2 Easy and 1 Medium in stock: `[]` |
| Generation.ExtractJson | QuizAgent.py:95-98 | when the reply holds a fence, what reaches the parser is a stretch of the reply that starts after the first fence and holds no fence itself |
| Generation.UnfencedUnchanged | QuizAgent.py:95-98 | a reply without "```" reaches the JSON parser unchanged |
| Generation.JsonBlockExtracted | QuizAgent.py:95-96 | with `rest` the text after the first "```json": the stripped text of `rest` up to its first "```", or all of `rest` when there is none; when another "```json" begins one or two characters after that "```" (a run of four or five backticks), the body runs up to that "```json" instead and keeps the extra backticks |
| Generation.PlainBlockExtracted | QuizAgent.py:97-98 | in a reply without "```json", the stripped text after the first "```" up to the next "```", or to the end when there is none |
| Generation.AsList | QuizAgent.py:104-105 | a decoded list is used as it is; any other value becomes a one-element list |
| Generation.Normalize | QuizAgent.py:108-112 | a question normalises exactly when it is an object with an integer, boolean or one-character string answer; the answer becomes an integer and every other field is kept |
| Generation.LetterAnswer | QuizAgent.py:109-111 | a one-letter answer becomes ord(upper(c)) − ord("A"): "A".."Z" and "a".."z" both map to 0..25, so "B" and "b" give 1 |
| Generation.NormalizeIdempotent | QuizAgent.py:108-112 | normalising a normalised question changes nothing |
| Generation.IntegerAnswerKept | QuizAgent.py:112 | an integer answer passes through unchanged, with no range check |
| Generation.NormalizeAll | QuizAgent.py:108-123 | the batch normalises exactly when every question does, element by element |
| Generation.Slice | QuizAgent.py:114 | `xs[:n]` is a prefix of length min(n, len) for n ≥ 0, and drops −n items from the end for n < 0 |
| Generation.GenerateQuestions | QuizAgent.py:43-123 | `[]` without an API key, when the call raises or when the JSON does not parse; every returned question has an integer answer; never more than n |
| Generation.GenerateIsPrefix | QuizAgent.py:104-114 | the result is the first n normalised questions in order; one question that fails to normalise, anywhere in the reply, makes the result `[]` |
| Generation.SingleObjectWrapped | QuizAgent.py:104-105 | a reply holding one object, not a list, yields that one normalised question |
| Scoring.GeneratedIsQuiz | QuizAgent.py:108-114 | every generated list can be scored: each question carries an integer answer |
| Scoring.Weight | QuizAgent.py:17-21 | every question is worth between 1 and 4 points |
| Scoring.WeightOfLevel | QuizAgent.py:248-249 | a question naming a level is worth that level's `SCORING` entry; one without a difficulty is worth 1, like Easy; one whose difficulty is anything but a level name is worth 1 |
| Scoring.Points | QuizAgent.py:258-261 | an answer earns points exactly when it equals the correct index, and then earns the question's weight |
| Scoring.TotalPossible | QuizAgent.py:248-251 | the total possible lies between 1 and 4 points per question |
| Scoring.Score | QuizAgent.py:258-261 | the earned points never exceed the total possible |
| Scoring.PerfectScore | QuizAgent.py:248-261 | with one answer per question, the score equals the total possible exactly when every answer is correct |
| Scoring.AllWrongScoresZero | QuizAgent.py:258-261 | wrong answers throughout score 0 |
| Scoring.AllLevelsCorrect | test_e2e.py:354-375 | Easy, Medium and Hard questions all answered correctly score 1 + 2 + 4 = 7 |
| Scoring.SessionScore | QuizAgent.py:345-356 | the running session score, as written, equals the total possible once every question is answered, whatever the answers |
| Scoring.SessionScoreCountsWrongAnswer | QuizAgent.py:345-356 | one Easy question answered wrongly: the review earns 0, the running score shows 1 |

## Left out

- SQLite plumbing is not modelled: connections, the `ALTER TABLE` migration, indexes, `created_at` formatting and concurrent access. The table is an abstract sequence of rows.
- `CURRENT_TIMESTAMP` is a caller-supplied logical clock `now`.
- The uniformity of `ORDER BY RANDOM()` is not modelled. Random order is any sequence of choices, and `DrawReachesEverySample` shows every sample is reachable.
- QuestionStore.InvalidReport: SQLite leaves the order of rows with equal `reported_at` unspecified. The model's stable sort keeps such rows in id order. The contract states only the permutation and the descending order.
- QuestionStore.GetQuestions: whole rows are returned rather than the four selected columns. The `json.loads(json.dumps(options))` round trip is taken as the identity.
- QuestionStore.ToCandidate: a non-string, non-null `question` value (a number, say) would be stored by SQLite as text under column affinity. The model rejects such a record.
- Distribution.Targets: `int(n * pct / 100)` goes through a float in Python. The model uses exact truncating division, which agrees for the small non-negative inputs the sidebar allows.
- Json.ToInt and Text.ParseInt: only integers are modelled. Floats, underscores in digit strings and non-ASCII digits, which Python's `int()` also accepts, are left out.
- Generation.Normalize: `str.upper` is modelled on ASCII letters only. A non-ASCII character whose upper case is longer than one character (such as "ß") is accepted here where Python would raise.
- The prompt text and the Gemini call are not modelled. The reply is a `Reply` value, and `response.text` raising is `Raised`. The per-level counts computed in `generate_questions` only feed the prompt.
- Generation.ExtractJson: its own contract states only that, when the reply holds a fence, the parsed text is a fence-free stretch of the reply after the first fence (the empty text meets that too). The exact text for each fence layout, including a run of four or five backticks before "json", is stated by Generation.JsonBlockExtracted and Generation.PlainBlockExtracted.
- JSON parsing is the `decode` parameter. A `JSONDecodeError` is `None`.
- The error messages shown through Streamlit are left out.
- Scoring.Weight: a `difficulty` that is a JSON list or object makes `SCORING.get` raise (an unhashable key). The model gives it weight 1.
- The Streamlit UI is not modelled, apart from the scoring formulas and the input ranges used in `UiTargetsInRange`. This covers session state, buttons, reruns and the review rendering.
- `coaching_agent.py` is entirely language-model dialogue and is not modelled.
- `run_tests.py` is a test runner and is not modelled.
- User history, seen-question filtering, an over-fetch multiplier, an error-report verifier and persisting questions after generation appear only in the tests. None of them exists in `QuizAgent.py` or `question_database.py`, so none is modelled.

## Findings

| source | as written | input that shows it | evidently intended | confidence | as-written member | corrected member |
|---|---|---|---|---|---|---|
| QuizAgent.py:345-356 | pressing "Next Question" or "View Results" adds the question's `SCORING` weight to the session score whether or not the answer was correct (the correct-only update at lines 326-328 is commented out) | one Easy question, correct answer 0, user answers 1: "Your Score" shows 1 / 1 while the review marks it incorrect with 0 points | the score is the sum of the weights of correctly answered questions, as in the review (lines 258-261) and the expectation at test_e2e.py:354-375 | not executed | Scoring.SessionScore | Scoring.Score |
