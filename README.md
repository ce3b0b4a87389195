# Quiz and scoring engine of the poker quiz bot

`bot_quiz.py` is a Discord bot. Members create multiple-choice quizzes,
answer them through a dialog, and collect points. The points feed an
all-time board, a monthly board and a ladder of named ranks. This project
models the engine under the Discord plumbing.

- **Rank table** (`Ranks`): the descending `RANKS` thresholds with their
  colours, `get_rank`, and `get_next_rank_info`.
- **Card normaliser** (`Combo`): `convert_combo_to_emojis`. The suit
  symbols are abstract glyphs.
- **Answer parser and scoring formula** (`Answers`): `parse_answers`. The
  gain is `bonnes * p - mauvaises * 0.5`.
- **Score store** (`Scores`): records, lazy zero-initialisation, and the
  leaderboard sort.
- **Quiz registry entries** (`Quizzes`): how `/quiz2` builds a quiz, how a
  submission is recorded in it, and what `/reveal` reports.
- **Process state** (`Engine`): the class `QuizEngine` owns the quiz
  registry and both score buckets. Each handler that changes them is a
  method:
  - `Load` and `Rollover`: `load_scores`;
  - `CreateQuiz`: `/quiz2`;
  - `SubmitAnswer`: the dialog's `on_submit`;
  - `Reveal`: `/reveal`;
  - `SetPoints`, `AddPoints` and `RemovePoints`: the admin commands;
  - `Leaderboard`: the ordering behind `/leaderboard`.

The loops of the source are methods proved equal to specification
functions, and the properties are proved about those functions. These
loops are `get_rank`, `get_next_rank_info`, `convert_combo_to_emojis`,
`parse_answers`, the vote tally and the points lines. The source sorts
with `sorted()`. The model sorts by insertion in `OrderByPoints`, which is
proved to give a descending listing of exactly the bucket's lines.

Modelling decisions:
- Points are exact `real`s.
- A member is one `UserId`, a natural number. The source keys `answers` by
  `user.id` and the score buckets and `rankups` by `str(user.id)`; these
  are the same identity.
- The order in which the `answers` dict yields its submitters is kept as a
  sequence `order` beside the map.
- The current month is a parameter of `Load` and `Rollover`.
- A missing or unreadable score file is `None`.
- The rollover compares month numbers only, as the source does. A restart
  in the same month of a later year therefore keeps the monthly board.
- The rollover runs only when the store is loaded, as the code does. There
  is no check before each scoring event.
- Answers are typed as free text and parsed. There are no toggle buttons.
- No admin operation bulk-clears the buckets.

## Model

| member | source | states |
|---|---|---|
| Ranks.TableShape | bot_quiz.py:35-65 | RANKS, with RANK_COLORS folded into its entries, has 13 entries whose thresholds strictly descend, from 500 at the top to 0 for "ABI 0€" at the bottom |
| Ranks.ThresholdsDescend | bot_quiz.py:35-49 | each threshold of a descending table is above every later one |
| Ranks.FirstReached | bot_quiz.py:67-71 | the scan of get_rank stops at the first entry whose threshold p reaches, having passed only thresholds above p |
| Ranks.ReachedIsLargest | bot_quiz.py:67-71 | in a descending table the scan stops no later than any reached entry, at a threshold no lower |
| Ranks.ReachedAfter | bot_quiz.py:67-71 | in a descending table the scan goes past every entry whose threshold is above p |
| Ranks.ReachedAntitone | bot_quiz.py:67-71 | a larger total stops the scan no later |
| Ranks.PositionAntitone | bot_quiz.py:67-71 | with the bottom fallback, a larger total gives an entry no later and a threshold no lower |
| Ranks.RankPosition | bot_quiz.py:67-71 | get_rank always returns the name of some table entry, the fallback included |
| Ranks.GetRankLargestReached | bot_quiz.py:67-71 | for p >= 0, get_rank names the largest threshold that is at most p |
| Ranks.GetRankBelowTen | bot_quiz.py:67-71 | every total below 10, negative ones included, gets "ABI 0€" |
| Ranks.GetRankMonotone | bot_quiz.py:67-71 | get_rank is monotone: more points never give a lower threshold |
| Ranks.GetRank | bot_quiz.py:67-71 | get_rank as a function: the name of the entry where the top-down scan stops, else "ABI 0€"; its properties are the lemmas above |
| Ranks.ComputeRank | bot_quiz.py:67-71 | the loop of get_rank returns the rank specified by the table scan |
| Ranks.FirstAbove | bot_quiz.py:73-77 | the reversed scan stops at the first threshold from the bottom that is above p, having passed only thresholds at most p |
| Ranks.AboveIsSmallest | bot_quiz.py:73-77 | in a descending table the reversed scan stops at the smallest threshold above p |
| Ranks.AboveThenReached | bot_quiz.py:73-77 | the threshold found by the reversed scan is the one get_rank stops at for that many points |
| Ranks.NextRankNoneIff | bot_quiz.py:73-77 | (None, None, None) comes back exactly when p >= 500 |
| Ranks.NextRankSmallestAbove | bot_quiz.py:73-77 | a next rank is the smallest threshold strictly above p; the shortfall is positive and adds up to it; reaching it gives that rank |
| Ranks.GetNextRankInfo | bot_quiz.py:73-77 | get_next_rank_info as a function: the entry where the bottom-up scan stops, with the shortfall, or None for (None, None, None); its properties are in NextRankNoneIff and NextRankSmallestAbove |
| Ranks.ComputeNextRank | bot_quiz.py:73-77 | the loop of get_next_rank_info returns the specified next rank |
| Text.UpperChar | bot_quiz.py:117 | str.upper() on one character, for the ASCII letters |
| Text.LowerChar | bot_quiz.py:118 | str.lower() on one character, for the ASCII letters |
| Text.CaseMapsAscii | bot_quiz.py:117-118 | upper() leaves no ASCII lower-case letter and lower() no ASCII capital; ASCII letters stay letters; every other character is kept; each map absorbs the other |
| Text.Upper | bot_quiz.py:183 | str.upper() keeps the length, leaves no ASCII lower-case letter and keeps every other character in place |
| Text.TrimLeft | bot_quiz.py:112 | the leading whitespace removed is exactly the prefix that is whitespace |
| Text.TrimRight | bot_quiz.py:112 | the trailing whitespace removed is exactly the suffix that is whitespace |
| Text.Strip | bot_quiz.py:112 | strip() is no longer than its input, neither ends in whitespace, and leaves a string without whitespace as it is |
| Text.StripIdempotent | bot_quiz.py:112 | stripping twice is stripping once |
| Text.Split | bot_quiz.py:296 | split(sep) gives at least one piece, and no piece holds the separator |
| Text.JoinSplit | bot_quiz.py:296 | joining the pieces of a split with the separator gives back the string |
| Text.SplitCount | bot_quiz.py:296-297 | a split has one piece more than the string has separators |
| Text.UpperIdempotent | bot_quiz.py:299 | upper-casing twice is upper-casing once |
| Combo.RenderFrom | bot_quiz.py:113-122 | the loop accumulates text exactly when every remaining pair is valid, three glyphs per pair |
| Combo.RenderFromAt | bot_quiz.py:116-122 | pair j's upper-cased rank, suit symbol and space sit at position 3j of the accumulation |
| Combo.ComboPassThrough | bot_quiz.py:111-125 | the text comes back unchanged when the stripped token is shorter than 2, of odd length, or has a pair whose rank or suit is not accepted |
| Combo.RenderedGroups | bot_quiz.py:116-124 | for a token of valid pairs, the accumulation without its trailing space shows the len/2 groups separated by single spaces |
| Combo.ComboRendered | bot_quiz.py:111-124 | otherwise convert_combo_to_emojis gives len/2 groups, each an upper-cased rank and its suit symbol, separated by single spaces |
| Combo.RenderLoop | bot_quiz.py:114-122 | the loop with its early exit sets ok exactly when every pair is valid, and then holds the specified accumulation |
| Combo.AppendGroup | bot_quiz.py:122 | appending one valid pair's group moves it from the pending part to the accumulated part |
| Combo.ConvertCombo | bot_quiz.py:111-125 | convert_combo_to_emojis as a function: the accumulation without its last space when every pair is valid, else the text as typed; its properties are in ComboPassThrough and ComboRendered |
| Combo.ConvertComboLoop | bot_quiz.py:111-125 | the procedure returns the specified normalisation |
| Answers.Sorted | bot_quiz.py:188 | sorted() of a set of letters is strictly ascending and holds exactly the set's letters |
| Answers.SortedUnique | bot_quiz.py:188 | two ascending listings of the same letters are equal, so sorted() is the only ascending listing |
| Answers.ParseAnswers | bot_quiz.py:182-188 | the result is strictly ascending (so without repeats) and holds only valid letters; a valid letter is in it iff it occurs in raw.upper() |
| Answers.ParseAnswersLoop | bot_quiz.py:182-188 | the loop collecting letters into a set returns the specified parse |
| Answers.Hits | bot_quiz.py:214 | bonnes: one per selected letter found in correct; HitsAreIntersection gives its meaning |
| Answers.Misses | bot_quiz.py:215 | mauvaises: one per selected letter not found in correct; MissesAreDifference gives its meaning |
| Answers.Gained | bot_quiz.py:216 | gained = bonnes * p - mauvaises * 0.5, the same formula on_submit and reveal (351-353) apply; GainedCounts and GainedBounds give its meaning |
| Answers.HitsMissesSplit | bot_quiz.py:214-215 | bonnes + mauvaises is the number of selected letters |
| Answers.HitsAreIntersection | bot_quiz.py:214 | for a selection without repeats, bonnes is the size of selection ∩ correct |
| Answers.MissesAreDifference | bot_quiz.py:215 | for a selection without repeats, mauvaises is the size of selection \ correct |
| Answers.GainedCounts | bot_quiz.py:214-216 | the gain is p times the size of selection ∩ correct, minus 0.5 times the size of selection \ correct |
| Answers.GainedBounds | bot_quiz.py:214-216 | for p >= 0, n selected letters gain between -0.5 n and p n |
| Scores.RecordOf | bot_quiz.py:221-222 | the record setdefault leaves under u: the stored one, else zero points and zero questions |
| Scores.Credit | bot_quiz.py:218-228 | what on_submit leaves in a bucket; CreditOnly states it |
| Scores.WithPoints | bot_quiz.py:388-394 | what set_points leaves in a bucket; WithPointsOnly states it |
| Scores.Shifted | bot_quiz.py:408-434 | what add_points and remove_points leave in a bucket; ShiftRoundTrip and BucketsMoveTogether state it |
| Scores.CreditOnly | bot_quiz.py:218-228 | a credit lazily creates u's record, adds exactly the gain and one question, and leaves every other user's record alone |
| Scores.WithPointsOnly | bot_quiz.py:388-394 | set_points leaves u with exactly x points and the old question count; other users are untouched |
| Scores.ShiftRoundTrip | bot_quiz.py:408-434 | for a listed user, add_points x followed by remove_points x restores the bucket |
| Scores.BucketsMoveTogether | bot_quiz.py:221-228 | a credit or a shift changes both buckets alike, so the gap between all-time and monthly stays; set_points makes them equal |
| Scores.InsertPosition | bot_quiz.py:450 | the insertion point follows every line with at least x points and precedes the rest |
| Scores.Inserted | bot_quiz.py:450 | insertion adds exactly one line |
| Scores.InsertedAt | bot_quiz.py:450 | the lines before the insertion point stay, the new line is at it, and the rest shift up by one |
| Scores.InsertedDescending | bot_quiz.py:450 | insertion keeps the list descending |
| Scores.InsertedMembers | bot_quiz.py:450 | after insertion the lines are the old ones plus the new one |
| Scores.InsertedDistinct | bot_quiz.py:450 | inserting a line for a new user keeps one line per user |
| Scores.PlaceOne | bot_quiz.py:450 | placing one more user keeps the partial listing descending and exact |
| Scores.PlacedAll | bot_quiz.py:450 | a listing of all users is a descending listing of the whole bucket |
| Scores.OrderByPoints | bot_quiz.py:450 | the sort lists every user of the bucket once, with its record, in descending order of points |
| Quizzes.OptionLettersAscend | bot_quiz.py:297 | the first letter is 'A' and later options get strictly later letters |
| Quizzes.SubmittersAnswered | bot_quiz.py:209 | everyone in the submission order has a stored answer |
| Quizzes.RegistryUpdate | bot_quiz.py:301-309 | storing a well-formed quiz, or deleting one, keeps every quiz of the registry well-formed |
| Quizzes.NewQuiz | bot_quiz.py:296-309 | the quiz /quiz2 stores; NewQuizWellFormed, NewQuizShape and NewQuizCorrect state it |
| Quizzes.NewQuizWellFormed | bot_quiz.py:301-309 | a new quiz is well-formed, and its answers and rank-ups are empty |
| Quizzes.NewQuizShape | bot_quiz.py:296-298 | one option per segment between the pipe separators, lettered A, B, ... in input order, each holding its stripped and normalised segment; the segments rejoin to the input |
| Quizzes.NewQuizCorrect | bot_quiz.py:299 | one correct entry per ','-separated segment, each upper-case and without commas |
| Quizzes.StripIsSlice | bot_quiz.py:299 | every character of strip(s) comes from s |
| Quizzes.StripKeeps | bot_quiz.py:299 | a character not in s is not in strip(s) |
| Quizzes.UpperKeepsOut | bot_quiz.py:299 | upper() introduces only capital letters |
| Quizzes.WithAnswer | bot_quiz.py:209-236 | the quiz after an accepted answer; WithAnswerKeeps and WithAnswerRankup state it |
| Quizzes.SubmissionsAppend | bot_quiz.py:209 | a first answer that is strictly ascending and non-empty keeps each submitter listed once with a valid answer |
| Quizzes.WithAnswerKeeps | bot_quiz.py:209 | recording a first answer keeps the quiz well-formed, stores exactly that answer, appends u to the order, and leaves other answers alone |
| Quizzes.WithAnswerRankup | bot_quiz.py:232-236 | u is noted for a rank-up iff the rank changed, and then with the new rank; other rank-ups stay |
| Quizzes.Votes | bot_quiz.py:338-342 | the tally of one letter over the submitters in order; VotesAreVoters gives its meaning |
| Quizzes.Tally | bot_quiz.py:338-342 | counts: one entry per option letter; TallyCounts gives its meaning |
| Quizzes.VotesAreVoters | bot_quiz.py:338-342 | the tally over distinct submitters is the number of them whose answer holds the letter |
| Quizzes.TallyCounts | bot_quiz.py:338-342 | counts has an entry for exactly the option letters, each the number of submitted answers containing it |
| Quizzes.TallyAfterAnswer | bot_quiz.py:338-342 | after a first answer each option letter of that answer has exactly one more vote, and the others keep theirs |
| Quizzes.VotesAppend | bot_quiz.py:339-342 | one more submitter adds exactly their vote |
| Quizzes.VotesUnchanged | bot_quiz.py:339-342 | the tally depends only on the listed submitters' answers |
| Quizzes.Gains | bot_quiz.py:349-353 | each submitter in order with the gain of their stored answer; GainsAfterAnswer relates it to on_submit |
| Quizzes.ReportOf | bot_quiz.py:371-377 | what the /reveal message shows: question, options, correct answers, tally, points lines and rank-ups |
| Quizzes.GainsAfterAnswer | bot_quiz.py:349-353 | after a first answer the earlier points lines stay, and u's line comes last with exactly the gain credited at submission |
| Engine.QuizEngine.Load | bot_quiz.py:84-104 | no quiz is open; missing keys default to empty buckets and the current month; a stored month other than now empties the monthly bucket; the month becomes now |
| Engine.QuizEngine.Rollover | bot_quiz.py:100-104 | in a new month the monthly bucket is emptied and the month recorded; all-time scores and quizzes stay; in the same month nothing changes |
| Engine.QuizEngine.CreateQuiz | bot_quiz.py:293-309 | an existing id is refused with nothing changed; otherwise exactly the new quiz is added under the id, and scores stay |
| Engine.QuizEngine.SubmitAnswer | bot_quiz.py:190-236 | a closed quiz, a second answer or no valid letter changes nothing; otherwise the parsed letters are stored, both buckets credit the same gain, and the rank-up is noted iff get_rank differs before and after |
| Engine.QuizEngine.Accept | bot_quiz.py:209-236 | both buckets are credited with the gain and the quiz records the answer and the rank-up, keeping the registry well-formed |
| Engine.QuizEngine.Reveal | bot_quiz.py:328-379 | an unknown id gives None with nothing changed; otherwise it gives the quiz's report (tally and recomputed gains) and deletes the quiz; scores stay |
| Engine.QuizEngine.CountVotes | bot_quiz.py:338-342 | the nested counting loop yields the specified tally |
| Engine.QuizEngine.CountAnswer | bot_quiz.py:340-342 | one answer adds one vote to each counted letter it holds, and adds no keys |
| Engine.QuizEngine.PointsLines | bot_quiz.py:349-353 | the points loop yields the specified gain of each submitter, in order |
| Engine.QuizEngine.SetPoints | bot_quiz.py:388-395 | u ends with exactly x points in both buckets and keeps its question counts |
| Engine.QuizEngine.AddPoints | bot_quiz.py:408-415 | u gains x points in both buckets, and nothing else changes |
| Engine.QuizEngine.RemovePoints | bot_quiz.py:428-435 | u loses x points in both buckets, and nothing else changes |
| Engine.QuizEngine.Leaderboard | bot_quiz.py:445-459 | nothing when the all-time bucket is empty; otherwise both buckets, each listed exactly once per user in descending order of points |

## Left out

- Discord I/O is not modelled: the bot, its intents and `on_ready`, the button and dialog classes, `interaction.response`, `fetch_user`, `get_member`, and every embed and message text. It is network traffic to a library outside this model.
- `update_user_rank_role` is not modelled. It only calls platform role APIs. The model keeps the rank-ups noted at submission and returns them in the reveal report, but does not apply them.
- The "previous rank" of a rank-up at reveal, `get_rank(old_pts - 0.001)`, is not modelled. It only feeds the role call.
- `save_scores` and the file and JSON work of `load_scores` are file I/O. `Load` receives the parsed content, and a missing or corrupt file is `None`.
- `datetime.now()` is the wall clock. The current month is a parameter.
- Python float rounding is not modelled. Points are exact reals, so the printed `:.1f` rounding is also absent.
- Admin permission checks and debug `print` logging are not modelled. They are platform flags and console output.
- The leaderboard's text is not modelled: user names, positions and the rank shown per line are formatting.
- Scores.OrderByPoints, Engine.QuizEngine.Leaderboard: the order among equal totals is not stated. `sorted` is stable over the dict's insertion order, which the buckets do not keep, so only descending order and exact contents are promised.
- Quizzes.NewQuiz, Engine.QuizEngine.CreateQuiz: require at most 0xD800 - 65 choices, because a Dafny char cannot reach the surrogate range. Discord limits command options to 6000 characters, so the bound is never reached.
- Answers.ParseAnswers: upper() is modelled for ASCII letters only. The parse is exact for ASCII input in a quiz of at most 63 options, whose letters are all ASCII. Non-ASCII input that Python upper-cases into an ASCII letter ('ı' to "I", 'ß' to "SS") is not collected. In a larger quiz, Python never collects option letters that upper() changes, such as 'µ', and collects a typed 'à' as the option 'À'; the model collects 'µ' and drops 'à'.
- Quizzes.NewQuiz, Quizzes.NewQuizCorrect: the correct answers are upper-cased in ASCII only. An author's "ı" stays "ı", where Python makes it "I" (so the option I is correct); in the model that option is always a miss.
- Text.Upper, Text.UpperChar, Text.LowerChar: cover ASCII letters only; Python's full Unicode case mapping, including the one-to-many mappings, is not modelled.
- Engine.QuizEngine.Reveal: the handler is taken as atomic, with every network call succeeding. The source awaits fetch_user (355, 360), the role update (367) and send_message (371) before deleting the quiz (379). If one of these raises, the quiz stays open. A submission during those awaits can make the loops over answers and rankups raise (the dict changes size during iteration), and the quiz is again not deleted. A submission after the loops but before the delete is credited to both buckets, is missing from the report, and is then deleted with the quiz. None of this is modelled.
- Engine.QuizEngine.SubmitAnswer: the dialog's valid letters are a parameter. The source captures them from the quiz's options when the answer button is clicked.
- Engine.QuizEngine.SubmitAnswer: the accepted outcome also carries the two ranks, so that the caller can see the rank-up decision.
