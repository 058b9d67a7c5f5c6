# Codebreaker contest format

A Dafny model of the "codebreaker" contest format of the judge. In a
codebreaker contest a contestant submits inputs meant to break a reference
solution:

- Only judged submissions count: pending submissions, internal errors (IE)
  and compile errors (CE) are never examined and cost nothing.
- A judged submission with nonzero points breaks the code.
- Each judged submission examined before the one that breaks the code
  costs a configurable penalty. When none breaks it, every judged submission
  to the problem costs the penalty. In both cases a submission whose first
  test case reports "Insane Input" costs nothing.
- Per problem, the contestant is recorded with:
  - the time of the last submission examined;
  - the points after penalties, floored at zero once the code is broken.
- The score counts only the problems whose code was broken.

The model covers:

- the configuration check `validate`;
- the construction of a format instance with its effective configuration;
- the in-place scoring of a participation `update_participation`;
- the class a scoreboard cell is shown with, `best_solution_state`.

Modules:

- `Wrappers`: `Option`, `Result` and `Outcome`.
- `Decimal`: the decimal string of a problem id (the breakdown's key). Its
  inverse shows that distinct problems never share a key.
- `CodebreakerConfig`: configuration values, the defaults (`penalty` = 1),
  the per-item check made by `validate`, and `dict.update` as a fold over the
  items.
- `Scoring`: pure reference definitions of the scoring rule.
  - `Examine`: the walk over one problem's submissions, defined by the index
    of the first breaking submission and a count of the charged submissions.
  - `Tabulate`: the per-problem rows, one problem after another.
  - `Standings`: the four fields a participation is left with.
- `ScoringLemmas`: what the scoring rule guarantees.
- `Codebreaker`: the classes `Participation` and `CodebreakerFormat`.
  - `UpdateParticipation` keeps the source's nested loops (the inner one is
    `WalkSubmissions`) and is proved to leave the participation holding
    exactly `Standings`.

The scorer's time variable `dt` is set by each submission examined and is
never reset between problems. So a problem with no qualifying submission is
recorded with the previous problem's time, and that time is counted twice.
When the first problem has none, the variable is read before it was ever
bound: Python raises `UnboundLocalError`. The model keeps this behaviour:

- `dt` is an `Option<int>` carried across problems;
- reading it while unbound gives `Fail(TimeUnbound(problem))`, and the
  participation is left untouched.

## Model

| member | source | states |
|---|---|---|
| CodebreakerConfig.SameType | judge/contest_format/codebreaker.py:36 | (definition) `isinstance(value, type(default))`: the value has the same kind as the default |
| CodebreakerConfig.Accepts | judge/contest_format/codebreaker.py:20 | (definition) the validator for `penalty`: the value is not negative |
| CodebreakerConfig.CheckEntry | judge/contest_format/codebreaker.py:34-39 | (definition) one item's checks in the source's order: unknown key, then wrong type, then the validator rejecting it, otherwise pass |
| CodebreakerConfig.Update | judge/contest_format/codebreaker.py:43 | (definition) `dict.update`: the items are applied to the base in order |
| CodebreakerConfig.EffectiveConfig | judge/contest_format/codebreaker.py:42-43 | (definition) a copy of the defaults updated with the supplied dict, `None` counting as empty |
| Codebreaker.CodebreakerFormat.Penalty | judge/contest_format/codebreaker.py:70 | (definition) the configured points lost per charged submission |
| Codebreaker.Participation | judge/contest_format/codebreaker.py:77-80 | (class) the participation: its start and submissions are fixed, and scoring overwrites its time, score, tiebreaker and breakdown |
| Scoring.Qualifies | judge/contest_format/codebreaker.py:54-55 | (definition) a submission is examined only when its result is set and is neither IE nor CE |
| Scoring.SortedByDate | judge/contest_format/codebreaker.py:56 | (definition) submissions in non-decreasing date order |
| Scoring.ProblemSubmissions | judge/contest_format/codebreaker.py:54-56 | (definition) the qualifying submissions to one problem, in the order given |
| Scoring.Charged | judge/contest_format/codebreaker.py:66-69 | (definition) a zero-point submission whose first feedback is not "Insane Input" costs a penalty |
| Scoring.Examine | judge/contest_format/codebreaker.py:57-69 | (definition) the walk over one problem. If some submission has nonzero points, the code is broken with its points, the charged submissions before it and its time. Otherwise it is unbroken with 0 points, every charged submission counted, and the last submission's time, or no time when there is no submission |
| Scoring.ProblemPoints | judge/contest_format/codebreaker.py:70-72 | (definition) awarded points less charged count times penalty, floored at 0 when broken |
| Scoring.NextRow | judge/contest_format/codebreaker.py:61-75 | (definition) one problem's row: broken flag and points from its walk, time from its walk or else the time carried from the previous problem; failure when there is neither |
| Scoring.Tabulate | judge/contest_format/codebreaker.py:53-75 | (definition) the rows for the problems one after another, ending with the first failure |
| Scoring.TotalTime | judge/contest_format/codebreaker.py:74 | (definition) the sum of the rows' times |
| Scoring.FormatData | judge/contest_format/codebreaker.py:75 | (definition) each row's decimal problem id mapped to its time and points, later rows overriding earlier ones |
| Scoring.Standings | judge/contest_format/codebreaker.py:46-80 | (definition) the failure of `Tabulate`, or time max(total time, 0), score the sum over broken problems, tiebreaker 0 and the breakdown |
| Codebreaker.CodebreakerFormat.Validate | judge/contest_format/codebreaker.py:26-39 | passes exactly for `None` or a dict whose every item sets `penalty` to a non-negative int; a non-dict fails with `NotADict`; a dict fails with the error of its first failing item, all earlier items passing |
| CodebreakerConfig.CheckEntryPasses | judge/contest_format/codebreaker.py:33-39 | one item passes the unknown-key, type and validator checks iff its key is `penalty` and its value a non-negative int |
| Codebreaker.CodebreakerFormat.constructor | judge/contest_format/codebreaker.py:41-44 | the instance keeps the contest and its configuration is a copy of the defaults updated with the supplied dict (`None` as empty) |
| CodebreakerConfig.UpdateKeys | judge/contest_format/codebreaker.py:43 | after `dict.update` a key is present iff it was in the base or some item has it |
| CodebreakerConfig.UpdateKeepsBase | judge/contest_format/codebreaker.py:43 | a base key that no item mentions keeps its base value |
| CodebreakerConfig.UpdateLastWins | judge/contest_format/codebreaker.py:43 | a key takes the value of the last item that mentions it |
| CodebreakerConfig.EmptyConfigGivesDefaults | judge/contest_format/codebreaker.py:19 | with `None` or `{}` the configuration is the defaults, penalty 1 |
| CodebreakerConfig.ValidConfigPenalty | judge/contest_format/codebreaker.py:41-44 | a validated configuration yields exactly the key `penalty`, a non-negative int: the last supplied value, or 1 when none is supplied |
| Codebreaker.CodebreakerFormat.UpdateParticipation | judge/contest_format/codebreaker.py:46-81 | on success the participation's time, score, tiebreaker and breakdown become those of `Standings`; when the time is read unbound it fails with that error and leaves the participation unchanged |
| Codebreaker.CodebreakerFormat.WalkSubmissions | judge/contest_format/codebreaker.py:57-69 | the loop's broken flag, points and penalty count are those of `Examine`; the time becomes the last examined submission's, or stays as it came in when there was none |
| Scoring.DistinctProblems | judge/contest_format/codebreaker.py:51 | no problem listed twice, and a problem is listed iff some submission is to it |
| Scoring.ProblemSubmissionsCount | judge/contest_format/codebreaker.py:54-56 | the filter keeps each qualifying submission to the problem (result set and neither IE nor CE) as often as it occurs, and nothing else |
| Scoring.ProblemSubmissionsMember | judge/contest_format/codebreaker.py:54-56 | every kept submission is a qualifying submission to the problem |
| Scoring.ProblemSubmissionsSorted | judge/contest_format/codebreaker.py:56 | the filtered submissions stay in date order |
| Scoring.BreakIndex | judge/contest_format/codebreaker.py:60-65 | the walk stops at the first submission with nonzero points: all before it have zero points |
| Scoring.ChargedCount | judge/contest_format/codebreaker.py:66-69 | at most one penalty per submission examined |
| ScoringLemmas.ExamineZeroStep | judge/contest_format/codebreaker.py:61-69 | a zero-point submission leaves the code unbroken, moves the time to its date and costs a penalty unless its first feedback is "Insane Input" |
| ScoringLemmas.ExamineSolveStep | judge/contest_format/codebreaker.py:61-65 | a nonzero-point submission breaks the code with its points and its time, adding no penalty |
| ScoringLemmas.ExamineAt | judge/contest_format/codebreaker.py:60-69 | one iteration of the walk, stated for the submission at a given index |
| ScoringLemmas.ExamineIgnoresLater | judge/contest_format/codebreaker.py:65 | once the code is broken, later submissions change nothing |
| ScoringLemmas.ChargedCountZero | judge/contest_format/codebreaker.py:66-69 | no penalty iff every submission examined has nonzero points or "Insane Input" feedback |
| ScoringLemmas.ExamineTime | judge/contest_format/codebreaker.py:61 | the walk sets the time iff there is a qualifying submission |
| ScoringLemmas.RecordedPoints | judge/contest_format/codebreaker.py:70-72 | a broken problem records awarded points less penalties, floored at 0; an unbroken one records minus the penalties, never positive for a non-negative penalty |
| ScoringLemmas.TabulateRows | judge/contest_format/codebreaker.py:53-75 | a successful run has one row per problem, in order, each with that problem's outcome and time, a problem without qualifying submissions taking the previous row's time |
| ScoringLemmas.TabulateNext | judge/contest_format/codebreaker.py:53-75 | (proof step for `UpdateParticipation`) the defining equation of `Tabulate` unfolded by one problem: it fails when the time is still unbound, and otherwise appends the problem's row |
| ScoringLemmas.AppendRow | judge/contest_format/codebreaker.py:73-75 | (proof step for `UpdateParticipation`) the defining equations of `TotalTime`, `SolvedScore` and `FormatData` unfolded by one row |
| ScoringLemmas.TabulateFailurePersists | judge/contest_format/codebreaker.py:74 | once the time is read unbound the whole run fails with that error |
| ScoringLemmas.TabulateFailsIff | judge/contest_format/codebreaker.py:74 | scoring fails iff the first problem has no qualifying submission, and the error names that problem |
| ScoringLemmas.StandingsFailsIff | judge/contest_format/codebreaker.py:51-74 | a participation fails to score iff its first-submitted problem has no qualifying submission |
| ScoringLemmas.SolvedScoreSkipsUnsolved | judge/contest_format/codebreaker.py:71-73 | an unbroken problem contributes nothing to the score |
| Scoring.SolvedScore | judge/contest_format/codebreaker.py:73 | the score is non-negative when every broken problem's points are |
| ScoringLemmas.SolvedRowsNonNegative | judge/contest_format/codebreaker.py:72 | every broken problem is recorded with non-negative points |
| ScoringLemmas.StandingsBounds | judge/contest_format/codebreaker.py:77-79 | the stored time is non-negative, the tiebreaker 0 and the score non-negative |
| ScoringLemmas.StandingsBreakdown | judge/contest_format/codebreaker.py:75 | the breakdown has one entry per distinct problem, keyed by the decimal id of exactly the problems submitted to |
| ScoringLemmas.FormatDataKeys | judge/contest_format/codebreaker.py:75 | the breakdown's keys are exactly the decimal ids of the rows' problems |
| ScoringLemmas.FormatDataValue | judge/contest_format/codebreaker.py:75 | each problem's entry holds its time and points |
| ScoringLemmas.FormatDataSize | judge/contest_format/codebreaker.py:75 | distinct problems give as many entries as rows |
| ScoringLemmas.FirstProblem | judge/contest_format/codebreaker.py:51 | the first problem listed is that of the first submission |
| ScoringLemmas.ProblemSubmissionsAppend | judge/contest_format/codebreaker.py:54-56 | a new submission extends only its own problem's filtered list, and only if it qualifies |
| ScoringLemmas.TabulateCongruence | judge/contest_format/codebreaker.py:53-75 | the rows depend on the submissions only through each problem's walk |
| ScoringLemmas.LateSubmissionIgnored | judge/contest_format/codebreaker.py:60-65 | a submission to a problem already broken leaves every field unchanged |
| ScoringLemmas.SingleProblem | judge/contest_format/codebreaker.py:46-80 | with one problem, the time and breakdown are that problem's, and the score its points only if broken |
| ScoringLemmas.BreakAfterWrongAnswer | judge/contest_format/codebreaker.py:60-75 | a wrong answer at 10 s, then 100 points at 20 s, penalty 1: time 20, score 99, entry "7" = (20, 99) |
| ScoringLemmas.InsaneInputOnly | judge/contest_format/codebreaker.py:66-68 | a lone "Insane Input" at 5 s: time 5, score 0, entry "7" = (5, 0) |
| ScoringLemmas.PendingFirstFails | judge/contest_format/codebreaker.py:54-74 | a problem with only an ungraded submission, listed first, makes scoring fail |
| Decimal.NatToString | judge/contest_format/codebreaker.py:75 | a problem id's key is non-empty, all digits, with no leading zero |
| Decimal.StringToNatOfNatToString | judge/contest_format/codebreaker.py:75 | reading a key back gives the problem id |
| Decimal.NatToStringInjective | judge/contest_format/codebreaker.py:75 | distinct problems have distinct keys |
| Codebreaker.CodebreakerFormat.BestSolutionState | judge/contest_format/codebreaker.py:84-89 | "failed-score" iff the points are negative; "full-score" iff they are non-negative and equal the total; "partial-score" otherwise |

## Left out

- The database query for distinct problems has no specified order. The model
  lists problems in order of first submission (`DistinctProblems`).
- `DistinctProblems`: which problem comes first decides whether scoring fails.
  Results are stated for this one order, not for every order the database
  might return.
- `ProblemSubmissions` keeps the given order. `UpdateParticipation` requires
  the submissions to be sorted by date, standing for the query's
  `order_by('submission__date')`.
- `participation.save()` and all persistence are left out. The method
  updates the object's fields only.
- Left out as outside the scoring logic:
  - contest-format registration;
  - the translated display name;
  - the imported rendering helpers (`reverse`, `format_html`, `nice_repr`,
    `floatformat`).
- Times are whole seconds and points are integers. `total_seconds()` returns
  a float and points may be fractional in the source.
- A submission carries the feedback of its first test case. The
  `IndexError` raised when a submission has no test cases is not modelled.
- Python's `bool` is an `int`. `True`/`False` in a configuration are
  modelled as `IntValue(1)`/`IntValue(0)`, as `isinstance` sees them.
- `SameType`: every value that is not an int, a string or `None` is one
  `OtherValue` type.
- `Codebreaker.CodebreakerFormat.constructor` requires a dict or `None`. The
  source would call `dict.update` on any other object, which raises or reads
  it as key/value pairs.
- `Codebreaker.CodebreakerFormat.UpdateParticipation` requires the penalty
  to be an int, as it is in every validated configuration. The source would
  multiply by whatever value it finds.
- The contest object is an opaque identifier. The format only stores it.
- The `UnboundLocalError` that the source raises is modelled as the
  `Fail(TimeUnbound(problem))` outcome.
