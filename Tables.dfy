/** The rows of the database tables the reports read and the roster services
    write (models/schedule.go, models/player.go, models/historical.go,
    models/recruit.go), and the error outcomes the services return.
    A table is a sequence of rows in storage order. */
module Tables {

  datatype Option<+T> = None | Some(value: T) {
    function GetOr(default: T): T {
      match this
      case Some(v) => v
      case None => default
    }
  }

  /** Why a service call failed. */
  datatype Error =
    | StoreUnavailable  // the database call itself returned an error
    | NullScan          // a NULL aggregate was scanned into an int or float64
    | RosterFull        // the team already has the maximum number of players

  datatype Result<+T> = Ok(value: T) | Err(error: Error)

  /** One row of `schedule`: one game of one team. */
  datatype ScheduleRow = ScheduleRow(
    id: int, teamId: int, teamName: string, year: int, week: int,
    opponent: string, teamRanking: int, opponentRanking: int,
    teamPoints: int, opponentPoints: int, result: string, site: string)

  /** One row of `players`. */
  datatype PlayerRow = PlayerRow(
    playerId: int, name: string, position: string, overall: int,
    gamesPlayed: int, gamesStarted: int, snapsPlayed: int,
    classYear: string, teamId: int, recruitmentSource: string)

  /** One row of `playergamestats`: one player's box score for one game,
      with every column the report queries read. */
  datatype GameStatRow = GameStatRow(
    playerId: int, scheduleId: int,
    completions: int, passAttempts: int, passingYards: int, passingTds: int,
    interceptions: int, rushAttempts: int, rushingYards: int, rushingTds: int,
    receptions: int, receivingYards: int, receivingTds: int)

  /** One row of `historicalrecords`; its numeric columns may be NULL. */
  datatype HistoricalRow = HistoricalRow(
    recordId: int, school: string, playerName: string,
    yearStart: int, yearEnd: int,
    completions: Option<int>, passingYards: Option<int>, touchdowns: Option<int>,
    rushYards: Option<int>, rushTds: Option<int>,
    receivingYards: Option<int>, receivingTds: Option<int>)

  /** One row of `recruits`, with the columns the promotion reads; the
      `class` column is held in `classYear`. */
  datatype RecruitRow = RecruitRow(
    recruitId: int, playerName: string, position: string, overall: int,
    classYear: string, teamId: int, recruitmentSource: string, recruitmentYear: int)

  /** The tables the report queries read. */
  datatype Db = Db(
    schedule: seq<ScheduleRow>, players: seq<PlayerRow>,
    gameStats: seq<GameStatRow>, historical: seq<HistoricalRow>)

  /** The summed counting columns of `playergamestats`: what SUM(g.<column>)
      gives for each column over a group of game rows. */
  datatype Totals = Totals(
    completions: int, passAttempts: int, passingYards: int, passingTds: int,
    interceptions: int, rushAttempts: int, rushingYards: int, rushingTds: int,
    receptions: int, receivingYards: int, receivingTds: int)

  const NoTotals := Totals(0, 0, 0, 0, 0, 0, 0, 0, 0, 0, 0)

  function RowTotals(g: GameStatRow): Totals {
    Totals(g.completions, g.passAttempts, g.passingYards, g.passingTds,
           g.interceptions, g.rushAttempts, g.rushingYards, g.rushingTds,
           g.receptions, g.receivingYards, g.receivingTds)
  }

  function Plus(a: Totals, b: Totals): Totals {
    Totals(a.completions + b.completions, a.passAttempts + b.passAttempts,
           a.passingYards + b.passingYards, a.passingTds + b.passingTds,
           a.interceptions + b.interceptions, a.rushAttempts + b.rushAttempts,
           a.rushingYards + b.rushingYards, a.rushingTds + b.rushingTds,
           a.receptions + b.receptions, a.receivingYards + b.receivingYards,
           a.receivingTds + b.receivingTds)
  }

  /** Column-wise sums over the game rows `gs`. */
  function Sum(gs: seq<GameStatRow>): Totals {
    if gs == [] then NoTotals else Plus(Sum(gs[..|gs| - 1]), RowTotals(gs[|gs| - 1]))
  }

  /** The seven totals the career and season reports expose. */
  datatype StatLine = StatLine(
    completions: int, passingYards: int, passingTds: int,
    rushingYards: int, rushingTds: int, receivingYards: int, receivingTds: int)

  function LineOf(t: Totals): StatLine {
    StatLine(t.completions, t.passingYards, t.passingTds, t.rushingYards,
             t.rushingTds, t.receivingYards, t.receivingTds)
  }

  /** What a `for rows.Next()` loop that scans every row and appends it
      returns: the rows, or NullScan as soon as one holds a NULL that
      cannot be scanned (`None` here). */
  function Scanned<T>(rows: seq<Option<T>>): (r: Result<seq<T>>)
    ensures r.Ok? <==> forall x :: x in rows ==> x.Some?
    ensures r.Err? ==> r.error == NullScan
    ensures r.Ok? ==> |r.value| == |rows|
    ensures r.Ok? ==> forall i :: 0 <= i < |rows| ==> rows[i] == Some(r.value[i])
  {
    if rows == [] then Ok([])
    else
      var init := rows[..|rows| - 1];
      var last := rows[|rows| - 1];
      assert rows == init + [last];
      match Scanned(init)
      case Err(e) => Err(e)
      case Ok(vs) =>
        if last.None? then assert last in rows; Err(NullScan)
        else Ok(vs + [last.value])
  }

  /** The scanning loop itself: appends each row until one cannot be
      scanned. */
  method ScanRows<T>(rows: seq<Option<T>>) returns (r: Result<seq<T>>)
    ensures r == Scanned(rows)
  {
    var out: seq<T> := [];
    var i := 0;
    while i < |rows|
      invariant 0 <= i <= |rows|
      invariant |out| == i
      invariant forall k :: 0 <= k < i ==> rows[k] == Some(out[k])
    {
      if rows[i].None? {
        assert rows[i] in rows;
        return Err(NullScan);
      }
      out := out + [rows[i].value];
      i := i + 1;
    }
    assert forall x :: x in rows ==> x.Some?;
    ghost var expected := Scanned(rows).value;
    assert forall k :: 0 <= k < |rows| ==> out[k] == expected[k];
    assert out == expected;
    return Ok(out);
  }
}
