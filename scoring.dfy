/** The codebreaker scoring rule as pure reference definitions. A submission
    either breaks the code (earns nonzero points) or costs a penalty, except
    that a submission whose first test case reports "Insane Input" costs
    nothing. Per problem only the submissions up to the first one that breaks
    the code are examined; the breakdown records each problem's time and
    points, and the total score counts only the problems that were broken. */
module Scoring {
  import opened Wrappers
  import Decimal

  type ProblemId = nat

  /** A contest submission as the scorer sees it: `date` is in whole seconds,
      `firstFeedback` is the feedback of its first test case. */
  datatype Submission = Submission(
    problem: ProblemId,
    result: Option<string>,
    date: int,
    points: int,
    firstFeedback: string)

  /** The feedback that marks an input the checker rejected: no penalty. */
  const InsaneInput: string := "Insane Input"

  /** Only judged submissions count, and neither internal errors nor
      compile errors. */
  predicate Qualifies(s: Submission) {
    s.result.Some? && s.result.value != "IE" && s.result.value != "CE"
  }

  predicate SortedByDate(subs: seq<Submission>) {
    forall i, j :: 0 <= i < j < |subs| ==> subs[i].date <= subs[j].date
  }

  /** Every problem submitted to, once each, in order of first submission. */
  function DistinctProblems(subs: seq<Submission>): (probs: seq<ProblemId>)
    ensures forall i, j :: 0 <= i < j < |probs| ==> probs[i] != probs[j]
    ensures forall q :: q in probs <==> exists s :: s in subs && s.problem == q
    decreases |subs|
  {
    if subs == [] then []
    else
      var front := subs[..|subs| - 1];
      var probs := DistinctProblems(front);
      var last := subs[|subs| - 1];
      assert subs == front + [last];
      if last.problem in probs then probs else probs + [last.problem]
  }

  /** The qualifying submissions to `prob`, in the order given. */
  function ProblemSubmissions(subs: seq<Submission>, prob: ProblemId): seq<Submission>
    decreases |subs|
  {
    if subs == [] then []
    else
      var front := subs[..|subs| - 1];
      var last := subs[|subs| - 1];
      assert subs == front + [last];
      var r := ProblemSubmissions(front, prob);
      if last.problem == prob && Qualifies(last) then r + [last] else r
  }

  /** The filter keeps each qualifying submission to `prob` as often as it
      occurs, and nothing else. */
  lemma {:induction false} ProblemSubmissionsCount(subs: seq<Submission>, prob: ProblemId, s: Submission)
    ensures multiset(ProblemSubmissions(subs, prob))[s] ==
              if s.problem == prob && Qualifies(s) then multiset(subs)[s] else 0
    decreases |subs|
  {
    if subs != [] {
      var front := subs[..|subs| - 1];
      assert subs == front + [subs[|subs| - 1]];
      ProblemSubmissionsCount(front, prob, s);
    }
  }

  /** Whatever the filter keeps is a qualifying submission to `prob`. */
  lemma {:induction false} ProblemSubmissionsMember(subs: seq<Submission>, prob: ProblemId, s: Submission)
    requires s in ProblemSubmissions(subs, prob)
    ensures s in subs && s.problem == prob && Qualifies(s)
  {
    ProblemSubmissionsCount(subs, prob, s);
  }

  /** The filter keeps date order. */
  lemma {:induction false} ProblemSubmissionsSorted(subs: seq<Submission>, prob: ProblemId)
    requires SortedByDate(subs)
    ensures SortedByDate(ProblemSubmissions(subs, prob))
    decreases |subs|
  {
    if subs != [] {
      var front := subs[..|subs| - 1];
      var last := subs[|subs| - 1];
      assert subs == front + [last];
      ProblemSubmissionsSorted(front, prob);
      var r := ProblemSubmissions(front, prob);
      if last.problem == prob && Qualifies(last) {
        forall i | 0 <= i < |r|
          ensures r[i].date <= last.date
        {
          ProblemSubmissionsMember(front, prob, r[i]);
        }
      }
    }
  }

  /** The index of the first submission that breaks the code, or the length
      when none does. */
  function BreakIndex(subs: seq<Submission>): (k: nat)
    ensures k <= |subs|
    ensures forall i :: 0 <= i < k ==> subs[i].points == 0
    ensures k < |subs| ==> subs[k].points != 0
    decreases |subs|
  {
    if subs == [] || subs[0].points != 0 then 0 else 1 + BreakIndex(subs[1..])
  }

  /** A submission that costs one penalty when examined. */
  predicate Charged(s: Submission) {
    s.points == 0 && s.firstFeedback != InsaneInput
  }

  /** The number of charged submissions in `subs`. */
  function ChargedCount(subs: seq<Submission>): (n: nat)
    ensures n <= |subs|
    decreases |subs|
  {
    if subs == [] then 0
    else ChargedCount(subs[..|subs| - 1]) + (if Charged(subs[|subs| - 1]) then 1 else 0)
  }

  /** What walking one problem's submissions yields: whether the code was
      broken, the points of the breaking submission (0 if none), the number of
      penalties, and the time since the start of the last submission examined
      (None if there was no submission to examine). */
  datatype Attempt = Attempt(solved: bool, awarded: int, charged: nat, lastDt: Option<int>)

  function Examine(subs: seq<Submission>, start: int): Attempt {
    var k := BreakIndex(subs);
    if k < |subs| then
      Attempt(true, subs[k].points, ChargedCount(subs[..k]), Some(subs[k].date - start))
    else
      Attempt(false, 0, ChargedCount(subs), if subs == [] then None else Some(subs[|subs| - 1].date - start))
  }

  function Max(a: int, b: int): int {
    if a >= b then a else b
  }

  /** The points a problem is recorded with: the awarded points less the
      penalties, not below zero once the code is broken. */
  function ProblemPoints(a: Attempt, penalty: int): int {
    var raw := a.awarded - a.charged * penalty;
    if a.solved then Max(raw, 0) else raw
  }

  /** One line of the breakdown. */
  datatype Row = Row(problem: ProblemId, solved: bool, time: int, points: int)

  /** The rows so far and the time variable as it stands after them. */
  datatype Tally = Tally(rows: seq<Row>, dt: Option<int>)

  /** The time variable is read before any submission has set it. */
  datatype UpdateError = TimeUnbound(problem: ProblemId)

  /** One problem's row. The time variable keeps its value from the previous
      problem when this one has no qualifying submission, and is unbound when
      no problem so far had one. */
  function NextRow(t: Tally, prob: ProblemId, subs: seq<Submission>, start: int, penalty: int): Result<Tally, UpdateError> {
    var a := Examine(ProblemSubmissions(subs, prob), start);
    var dt := if a.lastDt.Some? then a.lastDt else t.dt;
    if dt.None? then Failure(TimeUnbound(prob))
    else Success(Tally(t.rows + [Row(prob, a.solved, dt.value, ProblemPoints(a, penalty))], dt))
  }

  /** The rows for `probs`, one problem after another. */
  function Tabulate(probs: seq<ProblemId>, subs: seq<Submission>, start: int, penalty: int): Result<Tally, UpdateError>
    decreases |probs|
  {
    if probs == [] then Success(Tally([], None))
    else
      match Tabulate(probs[..|probs| - 1], subs, start, penalty)
      case Failure(e) => Failure(e)
      case Success(t) => NextRow(t, probs[|probs| - 1], subs, start, penalty)
  }

  /** The sum of the rows' times. */
  function TotalTime(rows: seq<Row>): int
    decreases |rows|
  {
    if rows == [] then 0 else TotalTime(rows[..|rows| - 1]) + rows[|rows| - 1].time
  }

  /** The sum of the points of the rows whose code was broken; it is never
      negative when those points are not. */
  function SolvedScore(rows: seq<Row>): (score: int)
    ensures (forall i :: 0 <= i < |rows| && rows[i].solved ==> rows[i].points >= 0) ==> score >= 0
    decreases |rows|
  {
    if rows == [] then 0
    else SolvedScore(rows[..|rows| - 1]) + (if rows[|rows| - 1].solved then rows[|rows| - 1].points else 0)
  }

  /** The time and points shown for one problem. */
  datatype ProblemScore = ProblemScore(time: int, points: int)

  /** The breakdown, keyed by the decimal string of the problem id. */
  function FormatData(rows: seq<Row>): map<string, ProblemScore>
    decreases |rows|
  {
    if rows == [] then map[]
    else
      var last := rows[|rows| - 1];
      FormatData(rows[..|rows| - 1])[Decimal.NatToString(last.problem) := ProblemScore(last.time, last.points)]
  }

  /** The fields a participation is left with. */
  datatype Standing = Standing(cumtime: int, score: int, tiebreaker: int, formatData: map<string, ProblemScore>)

  /** The result of scoring a participation whose submissions are `subs`. */
  function Standings(subs: seq<Submission>, start: int, penalty: int): Result<Standing, UpdateError> {
    match Tabulate(DistinctProblems(subs), subs, start, penalty)
    case Failure(e) => Failure(e)
    case Success(t) => Success(Standing(Max(TotalTime(t.rows), 0), SolvedScore(t.rows), 0, FormatData(t.rows)))
  }
}
