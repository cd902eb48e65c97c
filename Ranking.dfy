/** The top players of a season in one statistic (GetTopPlayersBySeason in
    services/report.go): per player name, the sum of the chosen column over
    that name's game rows of the season, highest first, at most ten rows. */
module Ranking {
  import opened Tables
  import opened Collections
  import opened SeasonReports
  import CareerReports

  /** The column of `playergamestats` named by `category`. The service
      splices the name into the SQL text unchecked; the model takes the
      column itself. */
  datatype StatColumn =
    | Completions | PassAttempts | PassingYards | PassingTds | Interceptions
    | RushAttempts | RushingYards | RushingTds | Receptions
    | ReceivingYards | ReceivingTds

  function Column(t: Totals, c: StatColumn): int {
    match c
    case Completions => t.completions
    case PassAttempts => t.passAttempts
    case PassingYards => t.passingYards
    case PassingTds => t.passingTds
    case Interceptions => t.interceptions
    case RushAttempts => t.rushAttempts
    case RushingYards => t.rushingYards
    case RushingTds => t.rushingTds
    case Receptions => t.receptions
    case ReceivingYards => t.receivingYards
    case ReceivingTds => t.receivingTds
  }

  /** A row of TopPlayerStats. */
  datatype TopPlayerStats = TopPlayerStats(playerName: string, statValue: int)

  function ValueOf(s: TopPlayerStats): int {
    s.statValue
  }

  function NameOf(s: TopPlayerStats): string {
    s.playerName
  }

  /** The joined rows of one GROUP BY p.name group: the game rows of the
      players called `name` whose game is a schedule row of `year`, once
      per such schedule row. */
  function SeasonGames(db: Db, year: int, name: string): (r: seq<GameStatRow>)
    ensures forall g :: g in r <==>
      && g in db.gameStats
      && (exists p :: p in db.players && p.name == name && p.playerId == g.playerId)
      && (exists s :: s in db.schedule && s.id == g.scheduleId && s.year == year)
  {
    StatsOfYear(JoinSchedule(CareerReports.GamesOfName(db.players, db.gameStats, name), db.schedule), year)
  }

  /** A name's season group holds each game row once per occurrence in the
      table, per player row of that name it belongs to, and per schedule
      row of the year its schedule_id matches. */
  lemma SeasonGamesCount(db: Db, year: int, name: string, g: GameStatRow)
    ensures multiset(SeasonGames(db, year, name))[g] ==
      CareerReports.NamedPlayers(db.players, name, g.playerId) * multiset(db.gameStats)[g] *
      ScheduleMatches(db.schedule, g.scheduleId, year)
  {
    var games := CareerReports.GamesOfName(db.players, db.gameStats, name);
    CareerReports.GamesOfNameCount(db.players, db.gameStats, name, g);
    JoinScheduleCount(games, db.schedule, DatedGame(g, year));
  }

  /** The names among `names` with game rows in `year`: the join with
      schedule drops every player without one. */
  function SeasonNames(db: Db, year: int, names: seq<string>): (r: seq<string>)
    ensures forall n :: n in r <==> n in names && SeasonGames(db, year, n) != []
    ensures NoDuplicates(names) ==> NoDuplicates(r)
  {
    if names == [] then []
    else
      var init := names[..|names| - 1];
      var last := names[|names| - 1];
      assert names == init + [last];
      SeasonNames(db, year, init) + (if SeasonGames(db, year, last) != [] then [last] else [])
  }

  /** SUM(g.<category>) of a name's group. */
  function SeasonValue(db: Db, year: int, category: StatColumn, name: string): int {
    Column(Sum(SeasonGames(db, year, name)), category)
  }

  function TopRows(db: Db, year: int, category: StatColumn, names: seq<string>): (r: seq<TopPlayerStats>)
    ensures |r| == |names|
    ensures forall i :: 0 <= i < |r| ==>
      r[i] == TopPlayerStats(names[i], SeasonValue(db, year, category, names[i]))
  {
    seq(|names|, i requires 0 <= i < |names| =>
      TopPlayerStats(names[i], SeasonValue(db, year, category, names[i])))
  }

  /** The groups before ORDER BY and LIMIT: one per player name with game
      rows in the season. */
  function Candidates(db: Db, year: int, category: StatColumn): seq<TopPlayerStats> {
    TopRows(db, year, category, SeasonNames(db, year, Distinct(CareerReports.Names(db.players))))
  }

  /** GetTopPlayersBySeason: ORDER BY stat_value DESC LIMIT 10. */
  function TopPlayersBySeason(db: Db, year: int, category: StatColumn): (r: seq<TopPlayerStats>)
    ensures |r| <= 10
    ensures NonIncreasing(r, ValueOf)
  {
    Limit(SortDesc(Candidates(db, year, category), ValueOf), 10)
  }

  /** Each candidate is the group of a player's name with game rows in the
      season, and every such name has a candidate. */
  lemma CandidateRows(db: Db, year: int, category: StatColumn)
    ensures forall c :: c in Candidates(db, year, category) ==>
      SeasonGames(db, year, c.playerName) != [] &&
      c.statValue == SeasonValue(db, year, category, c.playerName)
    ensures forall p :: p in db.players && SeasonGames(db, year, p.name) != [] ==>
      TopPlayerStats(p.name, SeasonValue(db, year, category, p.name)) in Candidates(db, year, category)
  {
    var names := SeasonNames(db, year, Distinct(CareerReports.Names(db.players)));
    var rows := Candidates(db, year, category);
    forall c | c in rows
      ensures SeasonGames(db, year, c.playerName) != []
      ensures c.statValue == SeasonValue(db, year, category, c.playerName)
    {
      var i :| 0 <= i < |rows| && rows[i] == c;
      assert names[i] in names;
    }
    forall p | p in db.players && SeasonGames(db, year, p.name) != []
      ensures TopPlayerStats(p.name, SeasonValue(db, year, category, p.name)) in rows
    {
      PlayerCandidate(db, year, category, p);
    }
  }

  /** The group of a player's name with game rows in the season is a
      candidate. */
  lemma PlayerCandidate(db: Db, year: int, category: StatColumn, p: PlayerRow)
    requires p in db.players && SeasonGames(db, year, p.name) != []
    ensures TopPlayerStats(p.name, SeasonValue(db, year, category, p.name)) in Candidates(db, year, category)
  {
    var names := SeasonNames(db, year, Distinct(CareerReports.Names(db.players)));
    var rows := Candidates(db, year, category);
    assert p.name in CareerReports.Names(db.players);
    assert p.name in names;
    var i :| 0 <= i < |names| && names[i] == p.name;
    assert rows[i] == TopPlayerStats(p.name, SeasonValue(db, year, category, p.name));
  }

  /** Every row of a top-`n` list is one of the rows ranked. */
  lemma TopRowRanked<T>(xs: seq<T>, key: T -> int, n: nat, t: T)
    requires t in Limit(SortDesc(xs, key), n)
    ensures t in xs
  {
    var sorted := SortDesc(xs, key);
    assert t in sorted;
    assert t in multiset(sorted);
  }

  /** A row left out of a top-`n` list ranks no higher than any of the
      `n` rows kept. */
  lemma TopRowsCutoff<T>(xs: seq<T>, key: T -> int, n: nat, x: T)
    requires x in xs
    ensures var r := Limit(SortDesc(xs, key), n);
      x in r || (|r| == n && forall i :: 0 <= i < |r| ==> key(r[i]) >= key(x))
  {
    var sorted := SortDesc(xs, key);
    var r := Limit(sorted, n);
    assert x in multiset(sorted);
    var j :| 0 <= j < |sorted| && sorted[j] == x;
    if j < |r| {
      assert r[j] == x;
    } else {
      assert |sorted| > n;
      forall i | 0 <= i < |r|
        ensures key(r[i]) >= key(x)
      {
        assert r[i] == sorted[i];
      }
    }
  }

  /** At most ten rows, highest value first, no name twice, each the sum
      of the chosen column over that name's game rows of the season only. */
  lemma TopPlayersRows(db: Db, year: int, category: StatColumn)
    ensures |TopPlayersBySeason(db, year, category)| <= 10
    ensures NonIncreasing(TopPlayersBySeason(db, year, category), ValueOf)
    ensures DistinctBy(TopPlayersBySeason(db, year, category), NameOf)
    ensures forall t :: t in TopPlayersBySeason(db, year, category) ==>
      SeasonGames(db, year, t.playerName) != [] &&
      t.statValue == SeasonValue(db, year, category, t.playerName)
  {
    var candidates := Candidates(db, year, category);
    CandidateRows(db, year, category);
    forall t | t in TopPlayersBySeason(db, year, category)
      ensures t in candidates
    {
      TopRowRanked(candidates, ValueOf, 10, t);
    }
    TopNamesDistinct(db, year, category);
  }

  /** GROUP BY p.name: no name has two rows among the top players. */
  lemma TopNamesDistinct(db: Db, year: int, category: StatColumn)
    ensures DistinctBy(TopPlayersBySeason(db, year, category), NameOf)
  {
    var names := SeasonNames(db, year, Distinct(CareerReports.Names(db.players)));
    var candidates := Candidates(db, year, category);
    assert DistinctBy(candidates, NameOf) by {
      forall i, j | 0 <= i < j < |candidates|
        ensures NameOf(candidates[i]) != NameOf(candidates[j])
      {
        assert candidates[i].playerName == names[i] && candidates[j].playerName == names[j];
      }
    }
    var sorted := SortDesc(candidates, ValueOf);
    PermutationDistinctBy(candidates, sorted, NameOf);
    var r := TopPlayersBySeason(db, year, category);
    forall i, j | 0 <= i < j < |r|
      ensures NameOf(r[i]) != NameOf(r[j])
    {
      assert r[i] == sorted[i] && r[j] == sorted[j];
    }
  }

  /** A player with game rows in the season is either listed or outranked:
      then all ten rows have at least that player's value. */
  lemma TopPlayersCutoff(db: Db, year: int, category: StatColumn, p: PlayerRow)
    requires p in db.players && SeasonGames(db, year, p.name) != []
    ensures var r := TopPlayersBySeason(db, year, category);
      || (exists i :: 0 <= i < |r| && r[i].playerName == p.name)
      || (|r| == 10 && forall i :: 0 <= i < |r| ==>
            r[i].statValue >= SeasonValue(db, year, category, p.name))
  {
    var row := TopPlayerStats(p.name, SeasonValue(db, year, category, p.name));
    var r := TopPlayersBySeason(db, year, category);
    PlayerCandidate(db, year, category, p);
    TopRowsCutoff(Candidates(db, year, category), ValueOf, 10, row);
    if row in r {
      var i :| 0 <= i < |r| && r[i] == row;
    }
  }
}
