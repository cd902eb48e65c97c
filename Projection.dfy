/** Per-game averages and the record-break projection (GetPlayerAverageStats
    and PredictRecordBreak in services/report.go). */
module Projection {
  import opened Tables
  import opened SeasonReports
  import opened CareerReports

  /** PlayerAverageStats. */
  datatype AverageStats = AverageStats(
    avgCompletions: real, avgPassingYards: real, avgPassingTds: real,
    avgRushingYards: real, avgRushingTds: real,
    avgReceivingYards: real, avgReceivingTds: real)

  /** AVG(column): the sum over the rows divided by their number. */
  function Average(total: int, rows: nat): (r: real)
    requires rows > 0
    ensures r * rows as real == total as real
  {
    total as real / rows as real
  }

  /** Each average of `a`, times the `rows` averaged over, is the matching
      total of `t`. */
  ghost predicate Averages(a: AverageStats, t: Totals, rows: nat) {
    && a.avgCompletions * rows as real == t.completions as real
    && a.avgPassingYards * rows as real == t.passingYards as real
    && a.avgPassingTds * rows as real == t.passingTds as real
    && a.avgRushingYards * rows as real == t.rushingYards as real
    && a.avgRushingTds * rows as real == t.rushingTds as real
    && a.avgReceivingYards * rows as real == t.receivingYards as real
    && a.avgReceivingTds * rows as real == t.receivingTds as real
  }

  function AveragesOf(t: Totals, rows: nat): (r: AverageStats)
    requires rows > 0
    ensures Averages(r, t, rows)
  {
    AverageStats(
      Average(t.completions, rows), Average(t.passingYards, rows), Average(t.passingTds, rows),
      Average(t.rushingYards, rows), Average(t.rushingTds, rows),
      Average(t.receivingYards, rows), Average(t.receivingTds, rows))
  }

  /** GetPlayerAverageStats: the average of each column over the player's
      game rows (one average per game, not per season). With no game row
      every AVG is NULL and the scan into float64 fails. */
  function PlayerAverageStats(db: Db, playerId: int): (r: Result<AverageStats>)
    ensures r.Err? <==> GamesOfPlayer(db.gameStats, playerId) == []
    ensures r.Err? ==> r.error == NullScan
    ensures r.Ok? ==> var gs := GamesOfPlayer(db.gameStats, playerId);
      Averages(r.value, Sum(gs), |gs|)
  {
    var gs := GamesOfPlayer(db.gameStats, playerId);
    if gs == [] then Err(NullScan) else Ok(AveragesOf(Sum(gs), |gs|))
  }

  /** Go's int(x) for a float64 x: the integer part, truncated toward zero. */
  function Trunc(x: real): (r: int)
    ensures x >= 0.0 ==> 0 <= r && r as real <= x < r as real + 1.0
    ensures x < 0.0 ==> r <= 0 && r as real - 1.0 < x <= r as real
  {
    if x >= 0.0 then x.Floor else -((-x).Floor)
  }

  /** int(avg * float64(seasons)): the projection of one per-game average. */
  function Project(avg: real, seasons: int): int {
    Trunc(avg * seasons as real)
  }

  /** PredictionReport. */
  datatype PredictionReport = PredictionReport(
    playerId: int,
    predictedCompletions: int, recordCompletions: int,
    predictedPassingYards: int, recordPassingYards: int,
    predictedRushingYards: int, recordRushingYards: int,
    predictedReceivingYards: int, recordReceivingYards: int)

  /** PredictionReport{}: the zero value returned beside an error. */
  const NoPrediction := PredictionReport(0, 0, 0, 0, 0, 0, 0, 0, 0)

  /** `p` projects the averages `avg` over `seasons` and copies the ceiling
      `rec` for player `playerId`. */
  predicate Projects(p: PredictionReport, playerId: int, seasons: int,
                     avg: AverageStats, rec: CareerRecords) {
    && p.playerId == playerId
    && p.predictedCompletions == Project(avg.avgCompletions, seasons)
    && p.predictedPassingYards == Project(avg.avgPassingYards, seasons)
    && p.predictedRushingYards == Project(avg.avgRushingYards, seasons)
    && p.predictedReceivingYards == Project(avg.avgReceivingYards, seasons)
    && p.recordCompletions == rec.maxCompletions
    && p.recordPassingYards == rec.maxPassingYards
    && p.recordRushingYards == rec.maxRushingYards
    && p.recordReceivingYards == rec.maxReceivingYards
  }

  /** PredictRecordBreak, given the outcomes of GetPlayerAverageStats and
      GetCareerRecords: the first error beside the zero report, or the
      projection with no error. */
  function PredictRecordBreak(playerId: int, seasonsRemaining: int,
                              avg: Result<AverageStats>, records: Result<CareerRecords>)
    : (r: (PredictionReport, Option<Error>))
    ensures avg.Err? ==> r == (NoPrediction, Some(avg.error))
    ensures avg.Ok? && records.Err? ==> r == (NoPrediction, Some(records.error))
    ensures avg.Ok? && records.Ok? ==>
      r.1 == None && Projects(r.0, playerId, seasonsRemaining, avg.value, records.value)
  {
    if avg.Err? then (NoPrediction, Some(avg.error))
    else if records.Err? then (NoPrediction, Some(records.error))
    else
      var a := avg.value;
      var rec := records.value;
      var n := seasonsRemaining;
      (PredictionReport(
        playerId,
        Project(a.avgCompletions, n), rec.maxCompletions,
        Project(a.avgPassingYards, n), rec.maxPassingYards,
        Project(a.avgRushingYards, n), rec.maxRushingYards,
        Project(a.avgReceivingYards, n), rec.maxReceivingYards), None)
  }

  /** With no season remaining every predicted value is 0. */
  lemma NoSeasonsNoPrediction(playerId: int, avg: AverageStats, rec: CareerRecords)
    ensures var p := PredictRecordBreak(playerId, 0, Ok(avg), Ok(rec)).0;
      && p.predictedCompletions == 0 && p.predictedPassingYards == 0
      && p.predictedRushingYards == 0 && p.predictedReceivingYards == 0
  {
    assert avg.avgCompletions * 0.0 == 0.0;
    assert avg.avgPassingYards * 0.0 == 0.0;
    assert avg.avgRushingYards * 0.0 == 0.0;
    assert avg.avgReceivingYards * 0.0 == 0.0;
  }

  /** A whole-number average projects to exactly average times seasons: a
      player averaging 1200 passing yards with 3 seasons remaining is
      projected 3600. */
  lemma ProjectWhole(avg: int, seasons: int)
    ensures Project(avg as real, seasons) == avg * seasons
  {
    assert avg as real * seasons as real == (avg * seasons) as real;
  }

  /** For a non-negative average, more remaining seasons never project
      less. */
  lemma ProjectMonotone(avg: real, n: int, m: int)
    requires avg >= 0.0 && 0 <= n <= m
    ensures 0 <= Project(avg, n) <= Project(avg, m)
  {
    assert avg * n as real <= avg * m as real by {
      assert avg * (m - n) as real >= 0.0;
    }
  }
}
