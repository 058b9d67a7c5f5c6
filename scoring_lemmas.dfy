/** Properties of the codebreaker scoring rule: how one problem's walk reacts
    to each further submission, what a problem's recorded points can be, the
    shape of the breakdown, when scoring fails, and that unsolved problems and
    late submissions leave the score alone. */
module ScoringLemmas {
  import opened Wrappers
  import opened Scoring
  import Decimal

  // ---------------------------------------------------------------------
  // One problem's walk

  /** A submission that does not break the code, examined while the problem is
      still unbroken, costs one penalty unless its first test case reports
      "Insane Input", in which case it costs nothing; either way it becomes the
      last submission examined. */
  lemma ExamineZeroStep(xs: seq<Submission>, s: Submission, start: int)
    requires !Examine(xs, start).solved
    requires s.points == 0
    ensures Examine(xs + [s], start) ==
              Attempt(false, 0,
                      Examine(xs, start).charged + (if s.firstFeedback == InsaneInput then 0 else 1),
                      Some(s.date - start))
  {
    var ys := xs + [s];
    assert ys[..|xs|] == xs;
    assert forall i :: 0 <= i < |ys| ==> ys[i].points == 0;
  }

  /** The first submission that breaks the code ends the walk with its own
      points and date, keeping the penalties counted so far. */
  lemma ExamineSolveStep(xs: seq<Submission>, s: Submission, start: int)
    requires !Examine(xs, start).solved
    requires s.points != 0
    ensures Examine(xs + [s], start) ==
              Attempt(true, s.points, Examine(xs, start).charged, Some(s.date - start))
  {
    var ys := xs + [s];
    assert ys[..|xs|] == xs;
    assert ys[|xs|] == s;
  }

  /** `ExamineZeroStep` and `ExamineSolveStep` for a walk that has reached
      index `j` of `subs`; a break at `j` settles the walk over all of `subs`. */
  lemma ExamineAt(subs: seq<Submission>, j: nat, start: int)
    requires j < |subs|
    requires !Examine(subs[..j], start).solved
    ensures subs[j].points == 0 ==>
              Examine(subs[..j + 1], start) ==
                Attempt(false, 0,
                        Examine(subs[..j], start).charged + (if subs[j].firstFeedback == InsaneInput then 0 else 1),
                        Some(subs[j].date - start))
    ensures subs[j].points != 0 ==>
              Examine(subs, start) ==
                Attempt(true, subs[j].points, Examine(subs[..j], start).charged, Some(subs[j].date - start))
  {
    assert subs[..j] + [subs[j]] == subs[..j + 1];
    if subs[j].points == 0 {
      ExamineZeroStep(subs[..j], subs[j], start);
    } else {
      ExamineSolveStep(subs[..j], subs[j], start);
      assert subs[..j + 1] + subs[j + 1..] == subs;
      ExamineIgnoresLater(subs[..j + 1], subs[j + 1..], start);
    }
  }

  /** Once the code is broken, later submissions change nothing: neither the
      points, nor the penalties, nor the time. */
  lemma ExamineIgnoresLater(xs: seq<Submission>, ys: seq<Submission>, start: int)
    requires Examine(xs, start).solved
    ensures Examine(xs + ys, start) == Examine(xs, start)
  {
    var k := BreakIndex(xs);
    var zs := xs + ys;
    assert zs[k] == xs[k];
    assert BreakIndex(zs) == k;
    assert zs[..k] == xs[..k];
  }

  /** No penalty is counted exactly when no submission is charged: in
      particular a walk over submissions that all report "Insane Input" costs
      nothing. */
  lemma {:induction false} ChargedCountZero(xs: seq<Submission>)
    ensures ChargedCount(xs) == 0 <==> forall i :: 0 <= i < |xs| ==> !Charged(xs[i])
    decreases |xs|
  {
    if xs != [] {
      var front := xs[..|xs| - 1];
      ChargedCountZero(front);
      assert forall i :: 0 <= i < |front| ==> front[i] == xs[i];
    }
  }

  /** The walk has a time exactly when there was a submission to examine. */
  lemma ExamineTime(xs: seq<Submission>, start: int)
    ensures Examine(xs, start).lastDt.None? <==> xs == []
  {
  }

  /** A broken problem is recorded with its awarded points less the
      penalties, clamped at zero, so never negative; an unbroken problem is
      recorded with minus the penalties, never positive when the penalty is
      not negative. */
  lemma RecordedPoints(subs: seq<Submission>, start: int, penalty: int)
    ensures var a := Examine(subs, start);
            var pts := ProblemPoints(a, penalty);
            && (a.solved ==> a.awarded != 0 && pts == Max(a.awarded - a.charged * penalty, 0) && pts >= 0)
            && (!a.solved ==> pts == -(a.charged * penalty))
            && (!a.solved && penalty >= 0 ==> pts <= 0)
  {
  }

  // ---------------------------------------------------------------------
  // The breakdown

  /** Row `i` of the breakdown is the one for problem `prob`: broken or not
      and its points come from walking that problem's qualifying submissions,
      and its time is that of the last submission examined, or the previous
      row's time when the problem had no qualifying submission. */
  ghost predicate RowFor(rows: seq<Row>, i: nat, prob: ProblemId, subs: seq<Submission>, start: int, penalty: int)
    requires i < |rows|
  {
    var a := Examine(ProblemSubmissions(subs, prob), start);
    && rows[i].problem == prob
    && rows[i].solved == a.solved
    && rows[i].points == ProblemPoints(a, penalty)
    && (a.lastDt.Some? ==> rows[i].time == a.lastDt.value)
    && (a.lastDt.None? ==> i > 0 && rows[i].time == rows[i - 1].time)
  }

  /** A successful tabulation has one row per problem, in order, each the row
      for its problem, and leaves the time variable at the last row's time. */
  lemma {:induction false} TabulateRows(probs: seq<ProblemId>, subs: seq<Submission>, start: int, penalty: int)
    requires Tabulate(probs, subs, start, penalty).Success?
    ensures var t := Tabulate(probs, subs, start, penalty).value;
            && |t.rows| == |probs|
            && (probs == [] ==> t.dt.None?)
            && (probs != [] ==> t.dt == Some(t.rows[|probs| - 1].time))
            && forall i :: 0 <= i < |probs| ==> RowFor(t.rows, i, probs[i], subs, start, penalty)
    decreases |probs|
  {
    if probs != [] {
      var n := |probs| - 1;
      var front := probs[..n];
      TabulateRows(front, subs, start, penalty);
      var t := Tabulate(front, subs, start, penalty).value;
      var t' := Tabulate(probs, subs, start, penalty).value;
      assert t'.rows[..n] == t.rows;
      forall i | 0 <= i < n
        ensures RowFor(t'.rows, i, probs[i], subs, start, penalty)
      {
        assert RowFor(t.rows, i, front[i], subs, start, penalty);
        assert t'.rows[i] == t.rows[i];
        if i > 0 {
          assert t'.rows[i - 1] == t.rows[i - 1];
        }
      }
    }
  }

  /** Tabulating one more problem whose walk is `a`: it fails when neither
      this walk nor any earlier one set the time, and otherwise appends the
      problem's row and leaves the time at that row's time. */
  lemma TabulateNext(probs: seq<ProblemId>, i: nat, subs: seq<Submission>, start: int, penalty: int, t: Tally, a: Attempt)
    requires i < |probs|
    requires Tabulate(probs[..i], subs, start, penalty) == Success(t)
    requires Examine(ProblemSubmissions(subs, probs[i]), start) == a
    ensures a.lastDt.None? && t.dt.None? ==>
              Tabulate(probs[..i + 1], subs, start, penalty) == Failure(TimeUnbound(probs[i]))
    ensures a.lastDt.Some? || t.dt.Some? ==>
              var dt := if a.lastDt.Some? then a.lastDt.value else t.dt.value;
              Tabulate(probs[..i + 1], subs, start, penalty) ==
                Success(Tally(t.rows + [Row(probs[i], a.solved, dt, ProblemPoints(a, penalty))], Some(dt)))
  {
    assert probs[..i + 1][..i] == probs[..i];
  }

  /** Appending a row adds its time to the total time, its points to the
      score when it is broken, and its entry to the breakdown. */
  lemma AppendRow(rows: seq<Row>, row: Row)
    ensures TotalTime(rows + [row]) == TotalTime(rows) + row.time
    ensures SolvedScore(rows + [row]) == SolvedScore(rows) + (if row.solved then row.points else 0)
    ensures FormatData(rows + [row]) ==
              FormatData(rows)[Decimal.NatToString(row.problem) := ProblemScore(row.time, row.points)]
  {
    assert (rows + [row])[..|rows|] == rows;
  }

  /** Once a problem fails, the whole tabulation fails with the same error. */
  lemma {:induction false} TabulateFailurePersists(probs: seq<ProblemId>, n: nat, subs: seq<Submission>, start: int, penalty: int)
    requires n <= |probs|
    requires Tabulate(probs[..n], subs, start, penalty).Failure?
    ensures Tabulate(probs, subs, start, penalty) == Tabulate(probs[..n], subs, start, penalty)
    decreases |probs| - n
  {
    if n < |probs| {
      var m := |probs| - 1;
      assert probs[..m][..n] == probs[..n];
      TabulateFailurePersists(probs[..m], n, subs, start, penalty);
    } else {
      assert probs[..n] == probs;
    }
  }

  /** Scoring fails exactly when the first problem has no qualifying
      submission (the time variable is read before anything set it); later
      problems without one reuse the previous time instead. */
  lemma {:induction false} TabulateFailsIff(probs: seq<ProblemId>, subs: seq<Submission>, start: int, penalty: int)
    ensures Tabulate(probs, subs, start, penalty).Failure? <==>
              probs != [] && ProblemSubmissions(subs, probs[0]) == []
    ensures Tabulate(probs, subs, start, penalty).Failure? ==>
              Tabulate(probs, subs, start, penalty).error == TimeUnbound(probs[0])
    decreases |probs|
  {
    if probs != [] {
      var n := |probs| - 1;
      var front := probs[..n];
      if n == 0 {
        ExamineTime(ProblemSubmissions(subs, probs[0]), start);
      } else {
        assert front[0] == probs[0];
        TabulateFailsIff(front, subs, start, penalty);
        if Tabulate(front, subs, start, penalty).Success? {
          TabulateRows(front, subs, start, penalty);
        }
      }
    }
  }

  /** A problem that was not broken contributes nothing to the score,
      wherever its row stands. */
  lemma {:induction false} SolvedScoreSkipsUnsolved(xs: seq<Row>, r: Row, ys: seq<Row>)
    requires !r.solved
    ensures SolvedScore(xs + [r] + ys) == SolvedScore(xs + ys)
    decreases |ys|
  {
    if ys == [] {
      assert (xs + [r] + ys)[..|xs|] == xs;
      assert xs + ys == xs;
    } else {
      var n := |ys| - 1;
      SolvedScoreSkipsUnsolved(xs, r, ys[..n]);
      assert (xs + [r] + ys)[..|xs| + 1 + n] == xs + [r] + ys[..n];
      assert (xs + ys)[..|xs| + n] == xs + ys[..n];
    }
  }

  /** Rows for distinct problems have distinct breakdown keys. */
  ghost predicate DistinctRows(rows: seq<Row>) {
    forall i, j :: 0 <= i < j < |rows| ==> rows[i].problem != rows[j].problem
  }

  /** The breakdown's keys are the decimal ids of the rows' problems. */
  lemma {:induction false} FormatDataKeys(rows: seq<Row>, key: string)
    ensures key in FormatData(rows) <==> exists i :: 0 <= i < |rows| && key == Decimal.NatToString(rows[i].problem)
    decreases |rows|
  {
    if rows != [] {
      var n := |rows| - 1;
      var front := rows[..n];
      FormatDataKeys(front, key);
      if exists i :: 0 <= i < n && key == Decimal.NatToString(front[i].problem) {
        var i :| 0 <= i < n && key == Decimal.NatToString(front[i].problem);
        assert front[i] == rows[i];
      }
      if exists i :: 0 <= i < |rows| && key == Decimal.NatToString(rows[i].problem) {
        var i :| 0 <= i < |rows| && key == Decimal.NatToString(rows[i].problem);
        if i < n {
          assert front[i] == rows[i];
        }
      }
    }
  }

  /** With one row per distinct problem, each problem's entry holds its row's
      time and points. */
  lemma {:induction false} FormatDataValue(rows: seq<Row>, i: nat)
    requires DistinctRows(rows)
    requires i < |rows|
    ensures Decimal.NatToString(rows[i].problem) in FormatData(rows)
    ensures FormatData(rows)[Decimal.NatToString(rows[i].problem)] == ProblemScore(rows[i].time, rows[i].points)
    decreases |rows|
  {
    var n := |rows| - 1;
    if i < n {
      var front := rows[..n];
      assert front[i] == rows[i];
      FormatDataValue(front, i);
      Decimal.NatToStringInjective(rows[i].problem, rows[n].problem);
    }
  }

  /** With one row per distinct problem, the breakdown has one entry per row. */
  lemma {:induction false} FormatDataSize(rows: seq<Row>)
    requires DistinctRows(rows)
    ensures |FormatData(rows)| == |rows|
    decreases |rows|
  {
    if rows != [] {
      var n := |rows| - 1;
      var front := rows[..n];
      FormatDataSize(front);
      var key := Decimal.NatToString(rows[n].problem);
      if key in FormatData(front) {
        FormatDataKeys(front, key);
        var i :| 0 <= i < n && key == Decimal.NatToString(front[i].problem);
        assert front[i] == rows[i];
        Decimal.NatToStringInjective(front[i].problem, rows[n].problem);
        assert false;
      }
    }
  }

  // ---------------------------------------------------------------------
  // The whole participation

  lemma {:induction false} FirstProblem(subs: seq<Submission>)
    requires subs != []
    ensures DistinctProblems(subs) != [] && DistinctProblems(subs)[0] == subs[0].problem
    decreases |subs|
  {
    var front := subs[..|subs| - 1];
    if front != [] {
      FirstProblem(front);
    }
  }

  /** Scoring a participation fails exactly when the first problem submitted
      to has no qualifying submission. */
  lemma StandingsFailsIff(subs: seq<Submission>, start: int, penalty: int)
    ensures Standings(subs, start, penalty).Failure? <==>
              subs != [] && ProblemSubmissions(subs, subs[0].problem) == []
  {
    TabulateFailsIff(DistinctProblems(subs), subs, start, penalty);
    if subs != [] {
      FirstProblem(subs);
    }
  }

  /** Every broken problem's row has points that are not negative. */
  lemma SolvedRowsNonNegative(probs: seq<ProblemId>, subs: seq<Submission>, start: int, penalty: int)
    requires Tabulate(probs, subs, start, penalty).Success?
    ensures var rows := Tabulate(probs, subs, start, penalty).value.rows;
            forall i :: 0 <= i < |rows| && rows[i].solved ==> rows[i].points >= 0
  {
    var rows := Tabulate(probs, subs, start, penalty).value.rows;
    TabulateRows(probs, subs, start, penalty);
    forall i | 0 <= i < |rows| && rows[i].solved
      ensures rows[i].points >= 0
    {
      assert RowFor(rows, i, probs[i], subs, start, penalty);
      RecordedPoints(ProblemSubmissions(subs, probs[i]), start, penalty);
    }
  }

  /** A scored participation has a time that is not negative, a zero
      tiebreaker and a score that is not negative. */
  lemma StandingsBounds(subs: seq<Submission>, start: int, penalty: int)
    requires Standings(subs, start, penalty).Success?
    ensures var st := Standings(subs, start, penalty).value;
            st.cumtime >= 0 && st.tiebreaker == 0 && st.score >= 0
  {
    SolvedRowsNonNegative(DistinctProblems(subs), subs, start, penalty);
  }

  /** A scored participation's breakdown has one entry per problem submitted
      to, whatever the verdicts of its submissions, keyed by the problem's
      decimal id. */
  lemma StandingsBreakdown(subs: seq<Submission>, start: int, penalty: int)
    requires Standings(subs, start, penalty).Success?
    ensures var st := Standings(subs, start, penalty).value;
            && |st.formatData| == |DistinctProblems(subs)|
            && forall q :: Decimal.NatToString(q) in st.formatData <==> exists s :: s in subs && s.problem == q
  {
    var probs := DistinctProblems(subs);
    var rows := Tabulate(probs, subs, start, penalty).value.rows;
    TabulateRows(probs, subs, start, penalty);
    assert forall i :: 0 <= i < |rows| ==> rows[i].problem == probs[i] by {
      forall i | 0 <= i < |rows|
        ensures rows[i].problem == probs[i]
      {
        assert RowFor(rows, i, probs[i], subs, start, penalty);
      }
    }
    FormatDataSize(rows);
    forall q
      ensures Decimal.NatToString(q) in FormatData(rows) <==> q in probs
    {
      FormatDataKeys(rows, Decimal.NatToString(q));
      if Decimal.NatToString(q) in FormatData(rows) {
        var i :| 0 <= i < |rows| && Decimal.NatToString(q) == Decimal.NatToString(rows[i].problem);
        Decimal.NatToStringInjective(q, rows[i].problem);
      }
      if q in probs {
        var i :| 0 <= i < |probs| && probs[i] == q;
        assert Decimal.NatToString(q) == Decimal.NatToString(rows[i].problem);
      }
    }
  }

  // ---------------------------------------------------------------------
  // Late submissions

  lemma ProblemSubmissionsAppend(subs: seq<Submission>, s: Submission, q: ProblemId)
    ensures ProblemSubmissions(subs + [s], q) ==
              ProblemSubmissions(subs, q) + (if s.problem == q && Qualifies(s) then [s] else [])
  {
    assert (subs + [s])[..|subs|] == subs;
  }

  /** Tabulation depends on each problem's submissions only through the walk
      over them. */
  lemma {:induction false} TabulateCongruence(probs: seq<ProblemId>, subs: seq<Submission>, subs': seq<Submission>, start: int, penalty: int)
    requires forall q :: q in probs ==>
               Examine(ProblemSubmissions(subs, q), start) == Examine(ProblemSubmissions(subs', q), start)
    ensures Tabulate(probs, subs, start, penalty) == Tabulate(probs, subs', start, penalty)
    decreases |probs|
  {
    if probs != [] {
      var n := |probs| - 1;
      assert forall q :: q in probs[..n] ==> q in probs;
      TabulateCongruence(probs[..n], subs, subs', start, penalty);
      assert probs[n] in probs;
    }
  }

  /** A submission made after its problem's code was broken leaves every
      field of the participation as it was. */
  lemma LateSubmissionIgnored(subs: seq<Submission>, s: Submission, start: int, penalty: int)
    requires Examine(ProblemSubmissions(subs, s.problem), start).solved
    ensures Standings(subs + [s], start, penalty) == Standings(subs, start, penalty)
  {
    var xs := ProblemSubmissions(subs, s.problem);
    assert xs != [];
    ProblemSubmissionsMember(subs, s.problem, xs[0]);
    var subs' := subs + [s];
    assert subs'[..|subs|] == subs;
    assert DistinctProblems(subs') == DistinctProblems(subs);
    forall q | q in DistinctProblems(subs)
      ensures Examine(ProblemSubmissions(subs, q), start) == Examine(ProblemSubmissions(subs', q), start)
    {
      ProblemSubmissionsAppend(subs, s, q);
      if s.problem == q && Qualifies(s) {
        ExamineIgnoresLater(xs, [s], start);
      }
    }
    TabulateCongruence(DistinctProblems(subs), subs, subs', start, penalty);
  }

  // ---------------------------------------------------------------------
  // Worked examples

  /** With submissions to a single problem, the participation is recorded
      with that problem's time and points, and scores them once broken. */
  lemma SingleProblem(subs: seq<Submission>, prob: ProblemId, start: int, penalty: int, a: Attempt)
    requires DistinctProblems(subs) == [prob]
    requires Examine(ProblemSubmissions(subs, prob), start) == a
    requires a.lastDt.Some?
    ensures var pts := ProblemPoints(a, penalty);
            Standings(subs, start, penalty) ==
              Success(Standing(Max(a.lastDt.value, 0), if a.solved then pts else 0, 0,
                               map[Decimal.NatToString(prob) := ProblemScore(a.lastDt.value, pts)]))
  {
    var row := Row(prob, a.solved, a.lastDt.value, ProblemPoints(a, penalty));
    assert Tabulate([prob], subs, start, penalty) == Success(Tally([row], a.lastDt)) by {
      assert [prob][..0] == [] && [prob][..1] == [prob] && [prob][0] == prob;
      TabulateNext([prob], 0, subs, start, penalty, Tally([], None), a);
      assert [] + [row] == [row];
    }
    assert TotalTime([row]) == row.time && SolvedScore([row]) == (if row.solved then row.points else 0)
        && FormatData([row]) == map[Decimal.NatToString(prob) := ProblemScore(row.time, row.points)] by {
      AppendRow([], row);
      assert [] + [row] == [row];
    }
  }

  /** A wrong answer at 10 s, then a full 100 points at 20 s, penalty 1: the
      problem is recorded at 20 s with 99 points, and the score is 99. */
  lemma BreakAfterWrongAnswer()
    ensures Standings([Submission(7, Some("WA"), 10, 0, "Wrong Answer"),
                       Submission(7, Some("AC"), 20, 100, "Accepted")], 0, 1) ==
            Success(Standing(20, 99, 0, map["7" := ProblemScore(20, 99)]))
  {
    var subs := [Submission(7, Some("WA"), 10, 0, "Wrong Answer"), Submission(7, Some("AC"), 20, 100, "Accepted")];
    assert subs[..1][..0] == [];
    assert DistinctProblems(subs) == [7];
    assert ProblemSubmissions(subs, 7) == subs;
    assert Examine(subs, 0) == Attempt(true, 100, 1, Some(20)) by {
      ExamineSolveStep(subs[..1], subs[1], 0);
      assert subs[..1] + [subs[1]] == subs;
    }
    SingleProblem(subs, 7, 0, 1, Attempt(true, 100, 1, Some(20)));
  }

  /** A lone "Insane Input" at 5 s costs nothing: recorded at 5 s with 0
      points, the problem is not broken and the score is 0. */
  lemma InsaneInputOnly()
    ensures Standings([Submission(7, Some("WA"), 5, 0, "Insane Input")], 0, 1) ==
            Success(Standing(5, 0, 0, map["7" := ProblemScore(5, 0)]))
  {
    var subs := [Submission(7, Some("WA"), 5, 0, "Insane Input")];
    assert DistinctProblems(subs) == [7];
    assert ProblemSubmissions(subs, 7) == subs;
    assert Examine(subs, 0) == Attempt(false, 0, 0, Some(5)) by {
      ExamineZeroStep([], subs[0], 0);
      assert [] + [subs[0]] == subs;
    }
    SingleProblem(subs, 7, 0, 1, Attempt(false, 0, 0, Some(5)));
  }

  /** When the first problem submitted to has only a pending submission, the
      time is read before it is set and scoring fails. */
  lemma PendingFirstFails()
    ensures Standings([Submission(2, None, 40, 0, "")], 0, 1) == Failure(TimeUnbound(2))
  {
    var subs := [Submission(2, None, 40, 0, "")];
    assert DistinctProblems(subs) == [2];
    assert ProblemSubmissions(subs, 2) == [];
  }
}
