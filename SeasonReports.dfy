/** Season aggregation (services/report.go): the win/loss and points reports
    grouped by schedule year, for all teams or for one, and a player's
    totals grouped by the year of the game. */
module SeasonReports {
  import opened Tables
  import opened Collections

  /** A row of TeamPerformanceReport and of TeamSeasonStats. */
  datatype SeasonReport = SeasonReport(
    year: int, wins: int, losses: int,
    totalPointsScored: int, totalPointsAllowed: int)

  /** A row of PlayerYearlyStats. */
  datatype YearlyStats = YearlyStats(year: int, line: StatLine)

  /** The games of `year` (WHERE / GROUP BY year), in table order. */
  function GamesOfYear(games: seq<ScheduleRow>, year: int): (r: seq<ScheduleRow>)
    ensures forall g :: g in r <==> g in games && g.year == year
    ensures forall g :: multiset(r)[g] == if g.year == year then multiset(games)[g] else 0
  {
    Filter(games, (g: ScheduleRow) => g.year == year)
  }

  /** The games of team `teamId` (WHERE team_id = ?), in table order. */
  function GamesOfTeam(games: seq<ScheduleRow>, teamId: int): (r: seq<ScheduleRow>)
    ensures forall g :: g in r <==> g in games && g.teamId == teamId
    ensures forall g :: multiset(r)[g] == if g.teamId == teamId then multiset(games)[g] else 0
  {
    Filter(games, (g: ScheduleRow) => g.teamId == teamId)
  }

  function ResultsOf(games: seq<ScheduleRow>): (r: seq<string>)
    ensures |r| == |games| && forall i :: 0 <= i < |games| ==> r[i] == games[i].result
  {
    seq(|games|, i requires 0 <= i < |games| => games[i].result)
  }

  /** The aggregates of one GROUP BY year group `gs`: wins and losses are
      SUM(CASE WHEN result = 'Win' / 'Loss' THEN 1 ELSE 0 END), the points
      SUM(team_points) and SUM(opponent_points). */
  function Tally(gs: seq<ScheduleRow>, year: int): SeasonReport {
    if gs == [] then SeasonReport(year, 0, 0, 0, 0)
    else
      var t := Tally(gs[..|gs| - 1], year);
      var g := gs[|gs| - 1];
      SeasonReport(year,
        t.wins + (if g.result == "Win" then 1 else 0),
        t.losses + (if g.result == "Loss" then 1 else 0),
        t.totalPointsScored + g.teamPoints,
        t.totalPointsAllowed + g.opponentPoints)
  }

  /** The games whose result is neither "Win" nor "Loss" (a "Tie", say). */
  function CountOther(games: seq<ScheduleRow>): nat {
    if games == [] then 0
    else
      var r := games[|games| - 1].result;
      CountOther(games[..|games| - 1]) + (if r != "Win" && r != "Loss" then 1 else 0)
  }

  /** Wins count exactly the results "Win", losses exactly the results
      "Loss", and every game counts toward one of wins, losses and the rest. */
  lemma {:induction false} TallyCounts(gs: seq<ScheduleRow>, year: int)
    ensures Tally(gs, year).wins == multiset(ResultsOf(gs))["Win"]
    ensures Tally(gs, year).losses == multiset(ResultsOf(gs))["Loss"]
    ensures Tally(gs, year).wins + Tally(gs, year).losses + CountOther(gs) == |gs|
  {
    if gs != [] {
      var init := gs[..|gs| - 1];
      assert ResultsOf(gs) == ResultsOf(init) + [gs[|gs| - 1].result];
      TallyCounts(init, year);
    }
  }

  /** SUM(team_points) and SUM(opponent_points) over the games of `gs`. */
  function TeamPoints(gs: seq<ScheduleRow>): int {
    if gs == [] then 0 else TeamPoints(gs[..|gs| - 1]) + gs[|gs| - 1].teamPoints
  }

  function OpponentPoints(gs: seq<ScheduleRow>): int {
    if gs == [] then 0 else OpponentPoints(gs[..|gs| - 1]) + gs[|gs| - 1].opponentPoints
  }

  lemma {:induction false} TallyPoints(gs: seq<ScheduleRow>, year: int)
    ensures Tally(gs, year).totalPointsScored == TeamPoints(gs)
    ensures Tally(gs, year).totalPointsAllowed == OpponentPoints(gs)
  {
    if gs != [] {
      TallyPoints(gs[..|gs| - 1], year);
    }
  }

  /** The distinct years of `games`, ascending: the groups of GROUP BY year ORDER BY year. */
  function YearColumn(games: seq<ScheduleRow>): (r: seq<int>)
    ensures forall g :: g in games ==> g.year in r
    ensures forall y :: y in r ==> exists g :: g in games && g.year == y
  {
    if games == [] then []
    else
      var init := games[..|games| - 1];
      assert games == init + [games[|games| - 1]];
      YearColumn(init) + [games[|games| - 1].year]
  }

  function SeasonYears(games: seq<ScheduleRow>): (r: seq<int>)
    ensures forall i, j :: 0 <= i < j < |r| ==> r[i] < r[j]
    ensures forall y :: y in r <==> exists g :: g in games && g.year == y
  {
    var years := YearColumn(games);
    assert StrictTotalOrder(IntLess) by { IntLessIsStrictTotalOrder(); }
    var r := SortedDistinct(years, IntLess);
    assert forall i, j :: 0 <= i < j < |r| ==> IntLess(r[i], r[j]);
    r
  }

  /** The aggregate row of one year. */
  function Season(games: seq<ScheduleRow>, year: int): SeasonReport {
    Tally(GamesOfYear(games, year), year)
  }

  /** Each listed season year has at least one game. */
  lemma SeasonYearHasGames(games: seq<ScheduleRow>, years: seq<int>, i: int)
    requires years == SeasonYears(games) && 0 <= i < |years|
    ensures GamesOfYear(games, years[i]) != []
  {
    assert years[i] in years;
    var g :| g in games && g.year == years[i];
    assert g in GamesOfYear(games, years[i]);
  }

  /** The season rows of `years`, in that order. */
  function Seasons(games: seq<ScheduleRow>, years: seq<int>): (r: seq<SeasonReport>)
    ensures |r| == |years|
    ensures forall i :: 0 <= i < |r| ==> r[i] == Season(games, years[i]) && r[i].year == years[i]
  {
    seq(|years|, i requires 0 <= i < |years| => Season(games, years[i]))
  }

  /** GetTeamPerformanceBySeason: one row per year present, ascending, with
      the wins, losses and points of that year's games. */
  function TeamPerformanceBySeason(games: seq<ScheduleRow>): (r: seq<SeasonReport>)
    ensures forall i, j :: 0 <= i < j < |r| ==> r[i].year < r[j].year
    ensures forall g :: g in games ==> exists i :: 0 <= i < |r| && r[i].year == g.year
    ensures forall i :: 0 <= i < |r| ==> GamesOfYear(games, r[i].year) != []
    ensures forall i :: 0 <= i < |r| ==> r[i] == Season(games, r[i].year)
  {
    var years := SeasonYears(games);
    SeasonsCover(games, years);
    Seasons(games, years)
  }

  /** Every game's year has a season row, and every season row has games. */
  lemma SeasonsCover(games: seq<ScheduleRow>, years: seq<int>)
    requires years == SeasonYears(games)
    ensures forall g :: g in games ==>
      exists i :: 0 <= i < |years| && Seasons(games, years)[i].year == g.year
    ensures forall i :: 0 <= i < |years| ==> GamesOfYear(games, Seasons(games, years)[i].year) != []
  {
    var r := Seasons(games, years);
    forall g | g in games
      ensures exists i :: 0 <= i < |years| && r[i].year == g.year
    {
      var i :| 0 <= i < |years| && years[i] == g.year;
      assert r[i].year == g.year;
    }
    forall i | 0 <= i < |years|
      ensures GamesOfYear(games, r[i].year) != []
    {
      SeasonYearHasGames(games, years, i);
    }
  }

  /** GetTeamPerformance: the same groups, but only year, wins and losses are
      scanned; the points of the report stay at their zero value. */
  function TeamPerformance(games: seq<ScheduleRow>): (r: seq<SeasonReport>)
    ensures |r| == |TeamPerformanceBySeason(games)|
    ensures forall i :: 0 <= i < |r| ==>
      r[i] == TeamPerformanceBySeason(games)[i].(totalPointsScored := 0, totalPointsAllowed := 0)
  {
    var years := SeasonYears(games);
    seq(|years|, i requires 0 <= i < |years| =>
      Season(games, years[i]).(totalPointsScored := 0, totalPointsAllowed := 0))
  }

  /** GetTeamSeasonComparison: the season rows of team `teamId` only. */
  function TeamSeasonComparison(games: seq<ScheduleRow>, teamId: int): (r: seq<SeasonReport>)
    ensures forall i, j :: 0 <= i < j < |r| ==> r[i].year < r[j].year
    ensures forall g :: g in games && g.teamId == teamId ==>
      exists i :: 0 <= i < |r| && r[i].year == g.year
    ensures forall i :: 0 <= i < |r| ==>
      r[i] == Season(GamesOfTeam(games, teamId), r[i].year)
  {
    TeamPerformanceBySeason(GamesOfTeam(games, teamId))
  }

  /** In every season row the wins count exactly the games of that year
      whose result is "Win", the losses exactly those whose result is
      "Loss", so that any other result counts toward neither and wins and
      losses together never exceed the games of that year; the points are
      the sums over those games. */
  lemma SeasonCounts(games: seq<ScheduleRow>, year: int)
    ensures var s := Season(games, year);
            var gs := GamesOfYear(games, year);
            && s.year == year
            && s.wins == multiset(ResultsOf(gs))["Win"]
            && s.losses == multiset(ResultsOf(gs))["Loss"]
            && s.wins + s.losses + CountOther(gs) == |gs|
            && s.totalPointsScored == TeamPoints(gs)
            && s.totalPointsAllowed == OpponentPoints(gs)
  {
    var gs := GamesOfYear(games, year);
    TallyCounts(gs, year);
    TallyPoints(gs, year);
  }

  /** A game of `joined`: a game row paired with the year of a schedule row
      whose id it references. */
  datatype DatedGame = DatedGame(stat: GameStatRow, year: int)

  /** The years of the schedule rows whose id is `scheduleId`. */
  function YearsOfSchedule(schedule: seq<ScheduleRow>, scheduleId: int): (r: seq<int>)
    ensures forall y :: y in r <==> exists s :: s in schedule && s.id == scheduleId && s.year == y
  {
    if schedule == [] then []
    else
      var init := schedule[..|schedule| - 1];
      var last := schedule[|schedule| - 1];
      assert schedule == init + [last];
      YearsOfSchedule(init, scheduleId) + (if last.id == scheduleId then [last.year] else [])
  }

  /** The game row `g` paired with each of `years`. */
  function Dated(g: GameStatRow, years: seq<int>): (r: seq<DatedGame>)
    ensures forall d :: d in r <==> d.stat == g && d.year in years
  {
    if years == [] then []
    else
      var init := years[..|years| - 1];
      assert years == init + [years[|years| - 1]];
      Dated(g, init) + [DatedGame(g, years[|years| - 1])]
  }

  /** FROM playergamestats g JOIN schedule s ON g.schedule_id = s.id. */
  function JoinSchedule(stats: seq<GameStatRow>, schedule: seq<ScheduleRow>): (r: seq<DatedGame>)
    ensures forall d :: d in r <==>
      d.stat in stats && exists s :: s in schedule && s.id == d.stat.scheduleId && s.year == d.year
  {
    if stats == [] then []
    else
      var init := stats[..|stats| - 1];
      var last := stats[|stats| - 1];
      assert stats == init + [last];
      var years := YearsOfSchedule(schedule, last.scheduleId);
      JoinSchedule(init, schedule) + Dated(last, years)
  }

  /** How many schedule rows have id `scheduleId` and year `year`. */
  function ScheduleMatches(schedule: seq<ScheduleRow>, scheduleId: int, year: int): nat {
    if schedule == [] then 0
    else
      var last := schedule[|schedule| - 1];
      ScheduleMatches(schedule[..|schedule| - 1], scheduleId, year) +
        (if last.id == scheduleId && last.year == year then 1 else 0)
  }

  /** The years of the schedule rows with id `scheduleId`, one per row. */
  lemma {:induction false} YearsOfScheduleCount(schedule: seq<ScheduleRow>, scheduleId: int, year: int)
    ensures multiset(YearsOfSchedule(schedule, scheduleId))[year] == ScheduleMatches(schedule, scheduleId, year)
  {
    if schedule != [] {
      YearsOfScheduleCount(schedule[..|schedule| - 1], scheduleId, year);
    }
  }

  /** The join pairs each game row with the year of each schedule row that
      its schedule_id matches, once per such schedule row: a pair occurs as
      many times as its game row times the matching schedule rows. */
  lemma {:induction false} JoinScheduleCount(stats: seq<GameStatRow>, schedule: seq<ScheduleRow>, d: DatedGame)
    ensures multiset(JoinSchedule(stats, schedule))[d] ==
      multiset(stats)[d.stat] * ScheduleMatches(schedule, d.stat.scheduleId, d.year)
  {
    if stats != [] {
      var init := stats[..|stats| - 1];
      var last := stats[|stats| - 1];
      var years := YearsOfSchedule(schedule, last.scheduleId);
      var c := ScheduleMatches(schedule, d.stat.scheduleId, d.year);
      var a := multiset(init)[d.stat];
      var b := if d.stat == last then 1 else 0;
      assert JoinSchedule(stats, schedule) == JoinSchedule(init, schedule) + Dated(last, years);
      assert multiset(stats)[d.stat] == a + b by {
        assert stats == init + [last];
      }
      JoinScheduleCount(init, schedule, d);
      DatedCount(last, years, d);
      YearsOfScheduleCount(schedule, last.scheduleId, d.year);
      assert multiset(Dated(last, years))[d] == b * c;
      Distributes(a, b, c);
    }
  }

  lemma Distributes(a: int, b: int, c: int)
    ensures (a + b) * c == a * c + b * c
  {
  }

  /** `Dated(g, years)` holds each pair of `g` as often as its year occurs. */
  lemma {:induction false} DatedCount(g: GameStatRow, years: seq<int>, d: DatedGame)
    ensures multiset(Dated(g, years))[d] == if d.stat == g then multiset(years)[d.year] else 0
  {
    if years != [] {
      var init := years[..|years| - 1];
      assert years == init + [years[|years| - 1]];
      DatedCount(g, init, d);
    }
  }

  /** The game rows of player `playerId` (WHERE g.player_id = ?). */
  function GamesOfPlayer(stats: seq<GameStatRow>, playerId: int): (r: seq<GameStatRow>)
    ensures forall g :: g in r <==> g in stats && g.playerId == playerId
    ensures forall g :: multiset(r)[g] == if g.playerId == playerId then multiset(stats)[g] else 0
  {
    Filter(stats, (g: GameStatRow) => g.playerId == playerId)
  }

  /** The game rows of `joined` played in `year`. */
  function StatsOfYear(joined: seq<DatedGame>, year: int): (r: seq<GameStatRow>)
    ensures forall g :: g in r <==> DatedGame(g, year) in joined
    ensures forall g :: multiset(r)[g] == multiset(joined)[DatedGame(g, year)]
  {
    if joined == [] then []
    else
      var init := joined[..|joined| - 1];
      var last := joined[|joined| - 1];
      assert joined == init + [last];
      StatsOfYear(init, year) + (if last.year == year then [last.stat] else [])
  }

  /** The distinct years of `joined`, ascending. */
  function DatedYears(joined: seq<DatedGame>): (r: seq<int>)
    ensures forall d :: d in joined ==> d.year in r
    ensures forall y :: y in r ==> exists d :: d in joined && d.year == y
  {
    if joined == [] then []
    else
      var init := joined[..|joined| - 1];
      assert joined == init + [joined[|joined| - 1]];
      DatedYears(init) + [joined[|joined| - 1].year]
  }

  function JoinedYears(joined: seq<DatedGame>): (r: seq<int>)
    ensures forall i, j :: 0 <= i < j < |r| ==> r[i] < r[j]
    ensures forall y :: y in r <==> exists d :: d in joined && d.year == y
  {
    var years := DatedYears(joined);
    assert StrictTotalOrder(IntLess) by { IntLessIsStrictTotalOrder(); }
    var r := SortedDistinct(years, IntLess);
    assert forall i, j :: 0 <= i < j < |r| ==> IntLess(r[i], r[j]);
    r
  }

  /** The game rows of player `playerId`, each with the year of its game. */
  function PlayerSeasons(db: Db, playerId: int): seq<DatedGame> {
    JoinSchedule(GamesOfPlayer(db.gameStats, playerId), db.schedule)
  }

  /** Each listed year of a player has at least one game row. */
  lemma JoinedYearHasStats(joined: seq<DatedGame>, years: seq<int>, i: int)
    requires years == JoinedYears(joined) && 0 <= i < |years|
    ensures StatsOfYear(joined, years[i]) != []
  {
    assert years[i] in years;
    var d :| d in joined && d.year == years[i];
    assert d == DatedGame(d.stat, years[i]);
    assert d.stat in StatsOfYear(joined, years[i]);
  }

  /** The yearly rows of `years`, in that order. */
  function YearlyRows(joined: seq<DatedGame>, years: seq<int>): (r: seq<YearlyStats>)
    ensures |r| == |years|
    ensures forall i :: 0 <= i < |r| ==>
      r[i].year == years[i] && r[i].line == LineOf(Sum(StatsOfYear(joined, years[i])))
  {
    seq(|years|, i requires 0 <= i < |years| =>
      YearlyStats(years[i], LineOf(Sum(StatsOfYear(joined, years[i])))))
  }

  /** GROUP BY s.year ORDER BY s.year over the joined rows: one row per year
      present, ascending, holding the sums of that year's rows; a year
      without rows has no row. */
  function Progression(joined: seq<DatedGame>): (r: seq<YearlyStats>)
    ensures forall i, j :: 0 <= i < j < |r| ==> r[i].year < r[j].year
    ensures forall i :: 0 <= i < |r| ==>
      && StatsOfYear(joined, r[i].year) != []
      && r[i].line == LineOf(Sum(StatsOfYear(joined, r[i].year)))
    ensures forall d :: d in joined ==> exists i :: 0 <= i < |r| && r[i].year == d.year
  {
    var years := JoinedYears(joined);
    YearlyRowsCover(joined, years);
    YearlyRows(joined, years)
  }

  /** Every joined row's year has a yearly row, and every yearly row has
      game rows. */
  lemma YearlyRowsCover(joined: seq<DatedGame>, years: seq<int>)
    requires years == JoinedYears(joined)
    ensures forall d :: d in joined ==>
      exists i :: 0 <= i < |years| && YearlyRows(joined, years)[i].year == d.year
    ensures forall i :: 0 <= i < |years| ==> StatsOfYear(joined, YearlyRows(joined, years)[i].year) != []
  {
    var r := YearlyRows(joined, years);
    forall d | d in joined
      ensures exists i :: 0 <= i < |years| && r[i].year == d.year
    {
      var i :| 0 <= i < |years| && years[i] == d.year;
      assert r[i].year == d.year;
    }
    forall i | 0 <= i < |years|
      ensures StatsOfYear(joined, r[i].year) != []
    {
      JoinedYearHasStats(joined, years, i);
    }
  }

  /** GetPlayerCareerProgression: the per-year sums of the player's game rows. */
  function CareerProgression(db: Db, playerId: int): (r: seq<YearlyStats>)
    ensures forall i, j :: 0 <= i < j < |r| ==> r[i].year < r[j].year
    ensures forall i :: 0 <= i < |r| ==> StatsOfYear(PlayerSeasons(db, playerId), r[i].year) != []
  {
    Progression(PlayerSeasons(db, playerId))
  }

  /** Every row of a player's progression comes from that player's own game
      rows, joined to a schedule row of that year. */
  lemma ProgressionOnlyOwnGames(db: Db, playerId: int, year: int, g: GameStatRow)
    requires g in StatsOfYear(PlayerSeasons(db, playerId), year)
    ensures g in db.gameStats && g.playerId == playerId
    ensures exists s :: s in db.schedule && s.id == g.scheduleId && s.year == year
  {
  }
}
