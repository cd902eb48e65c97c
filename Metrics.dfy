/** Per-player derived metrics by position (GetPlayerStatsByPosition in
    services/report.go): the summed counting columns of each player of the
    requested position and the ratios computed from them, each of which is
    0 when its denominator sums to 0 (COALESCE(… / NULLIF(…, 0), 0)). */
module Metrics {
  import opened Tables
  import opened Collections
  import opened SeasonReports
  import opened CareerReports

  /** `numerator / NULLIF(denominator, 0)`, with COALESCE(…, 0) around it. */
  function Ratio(numerator: real, denominator: int): (r: real)
    ensures denominator == 0 ==> r == 0.0
    ensures denominator != 0 ==> r * denominator as real == numerator
  {
    if denominator == 0 then 0.0 else numerator / denominator as real
  }

  /** completion_percentage: completions per pass attempt, times 100. */
  function CompletionPercentage(t: Totals): (r: real)
    ensures t.passAttempts == 0 ==> r == 0.0
    ensures t.passAttempts != 0 ==> r * t.passAttempts as real == 100.0 * t.completions as real
  {
    Ratio(t.completions as real, t.passAttempts) * 100.0
  }

  /** yards_per_attempt. */
  function YardsPerAttempt(t: Totals): (r: real)
    ensures t.passAttempts == 0 ==> r == 0.0
    ensures t.passAttempts != 0 ==> r * t.passAttempts as real == t.passingYards as real
  {
    Ratio(t.passingYards as real, t.passAttempts)
  }

  /** qb_rating: (8.4 yards + 330 touchdowns + 100 completions
      - 200 interceptions) per pass attempt. */
  function QbRating(t: Totals): (r: real)
    ensures t.passAttempts == 0 ==> r == 0.0
    ensures t.passAttempts != 0 ==>
      r * t.passAttempts as real == (8.4 * t.passingYards as real + 330.0 * t.passingTds as real
        + 100.0 * t.completions as real - 200.0 * t.interceptions as real)
  {
    Ratio(8.4 * t.passingYards as real + 330.0 * t.passingTds as real
          + 100.0 * t.completions as real - 200.0 * t.interceptions as real,
          t.passAttempts)
  }

  /** yards_per_carry. */
  function YardsPerCarry(t: Totals): (r: real)
    ensures t.rushAttempts == 0 ==> r == 0.0
    ensures t.rushAttempts != 0 ==> r * t.rushAttempts as real == t.rushingYards as real
  {
    Ratio(t.rushingYards as real, t.rushAttempts)
  }

  /** scrimmage_yards: rushing plus receiving yards, with no division. */
  function ScrimmageYards(t: Totals): int {
    t.rushingYards + t.receivingYards
  }

  /** yards_per_scrimmage: scrimmage yards per rush attempt or reception. */
  function YardsPerScrimmage(t: Totals): (r: real)
    ensures t.rushAttempts + t.receptions == 0 ==> r == 0.0
    ensures t.rushAttempts + t.receptions != 0 ==>
      r * (t.rushAttempts + t.receptions) as real == (t.rushingYards + t.receivingYards) as real
  {
    Ratio(ScrimmageYards(t) as real, t.rushAttempts + t.receptions)
  }

  /** scrimmage_yards is the yards gained on carries plus the yards gained
      on receptions, and yards_per_scrimmage spreads it over those plays. */
  lemma ScrimmageYardsSplit(t: Totals)
    requires t.rushAttempts != 0 && t.receptions != 0
    ensures ScrimmageYards(t) as real ==
      YardsPerCarry(t) * t.rushAttempts as real + YardsPerReception(t) * t.receptions as real
    ensures t.rushAttempts + t.receptions != 0 ==>
      YardsPerScrimmage(t) * (t.rushAttempts + t.receptions) as real == ScrimmageYards(t) as real
  {
  }

  /** yards_per_reception. */
  function YardsPerReception(t: Totals): (r: real)
    ensures t.receptions == 0 ==> r == 0.0
    ensures t.receptions != 0 ==> r * t.receptions as real == t.receivingYards as real
  {
    Ratio(t.receivingYards as real, t.receptions)
  }

  /** A row of PlayerStatsReport: the summed columns and the metrics. */
  datatype PlayerStatsReport = PlayerStatsReport(
    playerName: string, position: string, totals: Totals,
    completionPercentage: real, yardsPerAttempt: real, qbRating: real,
    yardsPerCarry: real, scrimmageYards: int, yardsPerScrimmage: real,
    yardsPerReception: real)

  function StatsReport(name: string, position: string, t: Totals): PlayerStatsReport {
    PlayerStatsReport(name, position, t,
      CompletionPercentage(t), YardsPerAttempt(t), QbRating(t), YardsPerCarry(t),
      ScrimmageYards(t), YardsPerScrimmage(t), YardsPerReception(t))
  }

  /** WHERE position = ?: the players of `position`. */
  function PlayersAt(players: seq<PlayerRow>, position: string): (r: seq<PlayerRow>)
    ensures forall p :: p in r <==> p in players && p.position == position
    ensures forall p :: multiset(r)[p] == if p.position == position then multiset(players)[p] else 0
  {
    Filter(players, (p: PlayerRow) => p.position == position)
  }

  /** The names among `names` that have game rows among the players `at`:
      the inner join drops the others. */
  function WithGames(names: seq<string>, at: seq<PlayerRow>, stats: seq<GameStatRow>): (r: seq<string>)
    ensures forall n :: n in r <==> n in names && GamesOfName(at, stats, n) != []
  {
    if names == [] then []
    else
      var init := names[..|names| - 1];
      var last := names[|names| - 1];
      assert names == init + [last];
      WithGames(init, at, stats) + (if GamesOfName(at, stats, last) != [] then [last] else [])
  }

  /** GROUP BY name ORDER BY name: the names of the players of the position
      that have game rows, each once, in ascending order. */
  function PositionNames(db: Db, position: string): (r: seq<string>)
    ensures StrictlySorted(r, StringLess)
    ensures forall n :: n in r <==>
      GamesOfName(PlayersAt(db.players, position), db.gameStats, n) != []
  {
    var at := PlayersAt(db.players, position);
    var names := WithGames(Names(at), at, db.gameStats);
    assert forall n :: GamesOfName(at, db.gameStats, n) != [] ==> n in Names(at) by {
      forall n | GamesOfName(at, db.gameStats, n) != []
        ensures n in Names(at)
      {
        var g := GamesOfName(at, db.gameStats, n)[0];
        assert g in GamesOfName(at, db.gameStats, n);
      }
    }
    StringLessIsStrictTotalOrder();
    SortedDistinct(names, StringLess)
  }

  function PositionRows(db: Db, position: string, names: seq<string>): (r: seq<PlayerStatsReport>)
    ensures |r| == |names|
    ensures forall i :: 0 <= i < |r| ==>
      && r[i].playerName == names[i] && r[i].position == position
      && r[i].totals == Sum(GamesOfName(PlayersAt(db.players, position), db.gameStats, names[i]))
  {
    seq(|names|, i requires 0 <= i < |names| =>
      StatsReport(names[i], position,
        Sum(GamesOfName(PlayersAt(db.players, position), db.gameStats, names[i]))))
  }

  /** GetPlayerStatsByPosition. */
  function PlayerStatsByPosition(db: Db, position: string): (r: seq<PlayerStatsReport>)
    ensures |r| == |PositionNames(db, position)|
    ensures forall i :: 0 <= i < |r| ==> r[i].position == position
  {
    PositionRows(db, position, PositionNames(db, position))
  }

  /** The report holds one row per name of a player of the position with
      game rows, ordered by name; each row sums exactly the game rows of the
      players of that name and position, and carries the metrics of those
      sums. */
  lemma PositionReport(db: Db, position: string)
    ensures var r := PlayerStatsByPosition(db, position);
      forall i, j :: 0 <= i < j < |r| ==> StringLess(r[i].playerName, r[j].playerName)
    ensures var r := PlayerStatsByPosition(db, position);
      forall i :: 0 <= i < |r| ==>
        var gs := GamesOfName(PlayersAt(db.players, position), db.gameStats, r[i].playerName);
        && r[i].position == position && gs != []
        && r[i].totals == Sum(gs) && r[i] == StatsReport(r[i].playerName, position, Sum(gs))
    ensures var r := PlayerStatsByPosition(db, position);
      forall p :: (p in db.players && p.position == position &&
        GamesOfPlayer(db.gameStats, p.playerId) != []) ==>
        exists i :: 0 <= i < |r| && r[i].playerName == p.name
  {
    var names := PositionNames(db, position);
    var r := PlayerStatsByPosition(db, position);
    var at := PlayersAt(db.players, position);
    forall p | p in db.players && p.position == position &&
        GamesOfPlayer(db.gameStats, p.playerId) != []
      ensures exists i :: 0 <= i < |r| && r[i].playerName == p.name
    {
      PlayerHasRow(db, position, p);
    }
    forall i | 0 <= i < |r|
      ensures GamesOfName(at, db.gameStats, r[i].playerName) != []
    {
      assert names[i] in names;
    }
  }

  /** A player of the position with game rows has a row under its name. */
  lemma PlayerHasRow(db: Db, position: string, p: PlayerRow)
    requires p in db.players && p.position == position
    requires GamesOfPlayer(db.gameStats, p.playerId) != []
    ensures var r := PlayerStatsByPosition(db, position);
      exists i :: 0 <= i < |r| && r[i].playerName == p.name
  {
    var names := PositionNames(db, position);
    var r := PlayerStatsByPosition(db, position);
    PlayerNameListed(db, position, p);
    var i :| 0 <= i < |names| && names[i] == p.name;
    assert r[i].playerName == p.name;
  }

  /** A player of the position with game rows has their name among the
      groups. */
  lemma PlayerNameListed(db: Db, position: string, p: PlayerRow)
    requires p in db.players && p.position == position
    requires GamesOfPlayer(db.gameStats, p.playerId) != []
    ensures p.name in PositionNames(db, position)
  {
    var at := PlayersAt(db.players, position);
    var g := GamesOfPlayer(db.gameStats, p.playerId)[0];
    assert g in GamesOfPlayer(db.gameStats, p.playerId);
    assert p in at;
    assert g in GamesOfName(at, db.gameStats, p.name);
  }
}
