/** The codebreaker contest format: its configuration check, its instances
    (which hold the effective configuration), the scoring of a participation
    in place, and the class a scoreboard cell is shown with. */
module Codebreaker {
  import opened Wrappers
  import opened CodebreakerConfig
  import opened Scoring
  import ScoringLemmas
  import Decimal

  type ContestId = nat

  /** One contestant's participation: its start time and its submissions are
      fixed; scoring overwrites the four result fields. */
  class Participation {
    const start: int
    const submissions: seq<Submission>
    var cumtime: int
    var score: int
    var tiebreaker: int
    var formatData: map<string, ProblemScore>

    constructor (start: int, submissions: seq<Submission>)
      ensures this.start == start && this.submissions == submissions
      ensures cumtime == 0 && score == 0 && tiebreaker == 0 && formatData == map[]
    {
      this.start := start;
      this.submissions := submissions;
      cumtime := 0;
      score := 0;
      tiebreaker := 0;
      formatData := map[];
    }
  }

  class CodebreakerFormat {
    const contest: ContestId
    var config: map<string, ConfigValue>

    /** Checks a configuration before a contest is saved with it: `None`
        passes, anything but a dict fails, and a dict fails at its first item
        whose key is unknown, whose value has the wrong type, or whose value
        its validator rejects, checked in that order. */
    static method Validate(raw: RawConfig) returns (r: Outcome<ConfigError>)
      ensures r.Pass? <==>
                raw.NoConfig? ||
                (raw.Dict? && forall i :: 0 <= i < |raw.items| ==>
                   raw.items[i].0 == PenaltyKey && raw.items[i].1.IntValue? && raw.items[i].1.n >= 0)
      ensures raw.NotDict? ==> r == Fail(NotADict)
      ensures raw.Dict? && r.Fail? ==>
                exists j :: 0 <= j < |raw.items| &&
                  (forall i :: 0 <= i < j ==> CheckEntry(raw.items[i]).Pass?) &&
                  r == CheckEntry(raw.items[j])
    {
      if raw.NoConfig? {
        return Pass;
      }
      if !raw.Dict? {
        return Fail(NotADict);
      }
      var i := 0;
      while i < |raw.items|
        invariant i <= |raw.items|
        invariant forall k :: 0 <= k < i ==> CheckEntry(raw.items[k]).Pass?
      {
        var (key, value) := raw.items[i];
        CheckEntryPasses(raw.items[i]);
        if key !in Defaults {
          return Fail(UnknownKey(key));
        }
        if !SameType(value, Defaults[key]) {
          return Fail(InvalidType(key));
        }
        if !Accepts(key, value) {
          return Fail(InvalidValue(key, value));
        }
        i := i + 1;
      }
      forall k | 0 <= k < |raw.items|
        ensures raw.items[k].0 == PenaltyKey && raw.items[k].1.IntValue? && raw.items[k].1.n >= 0
      {
        CheckEntryPasses(raw.items[k]);
      }
      return Pass;
    }

    /** A format instance starts from a copy of the defaults and updates it
        with the supplied dict (`None` meaning none). */
    constructor (contest: ContestId, raw: RawConfig)
      requires !raw.NotDict?
      ensures this.contest == contest
      ensures config == EffectiveConfig(raw)
    {
      this.contest := contest;
      config := Defaults;
      new;
      config := Update(config, if raw.Dict? then raw.items else []);
    }

    predicate HasIntPenalty()
      reads this
    {
      PenaltyKey in config && config[PenaltyKey].IntValue?
    }

    /** The points lost per submission that did not break the code. */
    function Penalty(): int
      reads this
      requires HasIntPenalty()
    {
      config[PenaltyKey].n
    }

    /** The walk over one problem's qualifying submissions, in date order:
        stop at the first that breaks the code, taking its points; count a
        penalty for every other one examined unless its first test case
        reports "Insane Input". `dt` is the scorer's time variable: it comes
        in as the previous problem left it and goes out as the time of the
        last submission examined, or unchanged when there was none. */
    static method WalkSubmissions(subs: seq<Submission>, start: int, dtIn: Option<int>)
      returns (ac: bool, points: int, penalty: nat, dt: Option<int>)
      ensures var a := Examine(subs, start);
              && ac == a.solved && points == a.awarded && penalty == a.charged
              && dt == (if a.lastDt.Some? then a.lastDt else dtIn)
    {
      penalty := 0;
      points := 0;
      ac := false;
      dt := dtIn;
      var j := 0;
      while j < |subs|
        invariant j <= |subs|
        invariant !ac && points == 0
        invariant Examine(subs[..j], start) == Attempt(false, 0, penalty, if j == 0 then None else dt)
        invariant j == 0 ==> dt == dtIn
      {
        var sub := subs[j];
        dt := Some(sub.date - start);
        ScoringLemmas.ExamineAt(subs, j, start);
        if sub.points != 0 {
          ac := true;
          points := sub.points;
          return;
        }
        var feedback := sub.firstFeedback;
        if feedback == InsaneInput {
          j := j + 1;
          continue;
        }
        penalty := penalty + 1;
        j := j + 1;
      }
      assert subs[..j] == subs;
    }

    /** Scores `p` and writes the result onto it: the time, the score, a zero
        tiebreaker and the per-problem breakdown become those of `Standings`.
        When the first problem submitted to has no qualifying submission the
        time is read before it is set; the model then reports the error and
        leaves `p` as it was. */
    method UpdateParticipation(p: Participation) returns (r: Outcome<UpdateError>)
      requires HasIntPenalty()
      requires SortedByDate(p.submissions)
      modifies p
      ensures match Standings(p.submissions, p.start, Penalty())
              case Success(st) =>
                && r == Pass
                && p.cumtime == st.cumtime && p.score == st.score
                && p.tiebreaker == st.tiebreaker && p.formatData == st.formatData
              case Failure(e) =>
                r == Fail(e) && unchanged(p)
    {
      var unit := config[PenaltyKey].n;
      var cumtime := 0;
      var score := 0;
      var formatData: map<string, ProblemScore> := map[];
      var probs := DistinctProblems(p.submissions);
      var dt: Option<int> := None;  // unbound until a qualifying submission is examined
      ghost var rows: seq<Row> := [];
      var i := 0;
      var unbound: Option<ProblemId> := None;
      assert probs[..0] == [];
      while i < |probs|
        invariant i <= |probs|
        invariant unchanged(p)
        invariant unbound.None?
        invariant Tabulate(probs[..i], p.submissions, p.start, unit) == Success(Tally(rows, dt))
        invariant cumtime == TotalTime(rows) && score == SolvedScore(rows) && formatData == FormatData(rows)
      {
        var prob := probs[i];
        var subs := ProblemSubmissions(p.submissions, prob);
        ghost var before := Tally(rows, dt);
        ghost var a := Examine(subs, p.start);
        var ac, points, penalty;
        ac, points, penalty, dt := WalkSubmissions(subs, p.start, dt);
        assert ac == a.solved && points == a.awarded && penalty == a.charged;
        points := points - penalty * unit;
        if ac {
          points := Max(points, 0);
          score := score + points;
        }
        if dt.None? {
          ScoringLemmas.TabulateNext(probs, i, p.submissions, p.start, unit, before, a);
          unbound := Some(prob);
          break;
        }
        cumtime := cumtime + dt.value;
        formatData := formatData[Decimal.NatToString(prob) := ProblemScore(dt.value, points)];
        ghost var row := Row(prob, ac, dt.value, points);
        assert points == ProblemPoints(a, unit);
        ScoringLemmas.AppendRow(rows, row);
        rows := rows + [row];
        i := i + 1;
        assert Tabulate(probs[..i], p.submissions, p.start, unit) == Success(Tally(rows, dt)) by {
          ScoringLemmas.TabulateNext(probs, i - 1, p.submissions, p.start, unit, before, a);
        }
      }
      if unbound.Some? {
        // the time was read before any qualifying submission had set it
        ScoringLemmas.TabulateFailurePersists(probs, i + 1, p.submissions, p.start, unit);
        return Fail(TimeUnbound(unbound.value));
      }
      assert probs[..i] == probs;
      p.cumtime := Max(cumtime, 0);
      p.score := score;
      p.tiebreaker := 0;
      p.formatData := formatData;
      return Pass;
    }

    /** The class a scoreboard cell is shown with: failed when the points are
        negative, even if they equal the total; otherwise full when they equal
        the total and partial when they do not. */
    static function BestSolutionState(points: int, total: int): (state: string)
      ensures state == "failed-score" <==> points < 0
      ensures state == "full-score" <==> points >= 0 && points == total
      ensures state == "partial-score" <==> points >= 0 && points != total
    {
      if points < 0 then "failed-score"
      else if points == total then "full-score"
      else "partial-score"
    }
  }
}
