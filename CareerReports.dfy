/** Career totals and the historical record ceiling (services/report.go):
    each current player's summed game rows, the column-wise maximum of the
    historical records, the comparison of historical records with current
    players of the same name, and the pairing of career totals with the
    ceiling. */
module CareerReports {
  import opened Tables
  import opened Collections
  import opened SeasonReports

  /** A row of PlayerCareerStats. */
  datatype CareerStats = CareerStats(playerName: string, career: StatLine)

  function PassingYardsOf(s: CareerStats): int {
    s.career.passingYards
  }

  function PlayerNameOf(s: CareerStats): string {
    s.playerName
  }

  /** The names of `players`, one per row. */
  function Names(players: seq<PlayerRow>): (r: seq<string>)
    ensures forall n :: n in r <==> exists p :: p in players && p.name == n
  {
    if players == [] then []
    else
      var init := players[..|players| - 1];
      assert players == init + [players[|players| - 1]];
      Names(init) + [players[|players| - 1].name]
  }

  /** FROM players p LEFT JOIN playergamestats g ON g.player_id = p.player_id,
      restricted to the players called `name`: the game rows of every such
      player, once per player row (a name shared by two player rows counts
      their games together). */
  function GamesOfName(players: seq<PlayerRow>, stats: seq<GameStatRow>, name: string): (r: seq<GameStatRow>)
    ensures forall g :: g in r <==>
      g in stats && exists p :: p in players && p.name == name && p.playerId == g.playerId
  {
    if players == [] then []
    else
      var init := players[..|players| - 1];
      var last := players[|players| - 1];
      assert players == init + [last];
      GamesOfName(init, stats, name) +
        (if last.name == name then GamesOfPlayer(stats, last.playerId) else [])
  }

  /** How many player rows are called `name` and have id `playerId`. */
  function NamedPlayers(players: seq<PlayerRow>, name: string, playerId: int): nat {
    if players == [] then 0
    else
      var last := players[|players| - 1];
      NamedPlayers(players[..|players| - 1], name, playerId) +
        (if last.name == name && last.playerId == playerId then 1 else 0)
  }

  /** The join keeps full multiplicity: a game row occurs in a name's group
      once per occurrence in the table and per player row of that name it
      belongs to. */
  lemma GamesOfNameCount(players: seq<PlayerRow>, stats: seq<GameStatRow>, name: string, g: GameStatRow)
    ensures multiset(GamesOfName(players, stats, name))[g] ==
      NamedPlayers(players, name, g.playerId) * multiset(stats)[g]
  {
    GamesOfNameCopies(players, stats, name, g);
    CopiesCount(players, name, g.playerId, multiset(stats)[g]);
  }

  /** `m` copies for every player row called `name` with id `playerId`. */
  function Copies(players: seq<PlayerRow>, name: string, playerId: int, m: nat): nat {
    if players == [] then 0
    else
      var last := players[|players| - 1];
      Copies(players[..|players| - 1], name, playerId, m) +
        (if last.name == name && last.playerId == playerId then m else 0)
  }

  lemma {:induction false} CopiesCount(players: seq<PlayerRow>, name: string, playerId: int, m: nat)
    ensures Copies(players, name, playerId, m) == NamedPlayers(players, name, playerId) * m
  {
    if players != [] {
      var init := players[..|players| - 1];
      CopiesCount(init, name, playerId, m);
      Distributes(NamedPlayers(init, name, playerId), 1, m);
    }
  }

  lemma {:induction false} GamesOfNameCopies(players: seq<PlayerRow>, stats: seq<GameStatRow>, name: string, g: GameStatRow)
    ensures multiset(GamesOfName(players, stats, name))[g] ==
      Copies(players, name, g.playerId, multiset(stats)[g])
  {
    if players != [] {
      GamesOfNameLast(players, stats, name, g);
      GamesOfNameCopies(players[..|players| - 1], stats, name, g);
    }
  }

  /** The last player row adds its game rows to the group when it has the
      name. */
  lemma GamesOfNameLast(players: seq<PlayerRow>, stats: seq<GameStatRow>, name: string, g: GameStatRow)
    requires players != []
    ensures var init := players[..|players| - 1];
      var last := players[|players| - 1];
      multiset(GamesOfName(players, stats, name))[g] ==
        multiset(GamesOfName(init, stats, name))[g] +
        (if last.name == name && last.playerId == g.playerId then multiset(stats)[g] else 0)
  {
    var init := players[..|players| - 1];
    var last := players[|players| - 1];
    var added := if last.name == name then GamesOfPlayer(stats, last.playerId) else [];
    assert GamesOfName(players, stats, name) == GamesOfName(init, stats, name) + added;
    assert multiset(added)[g] == if last.name == name && last.playerId == g.playerId then multiset(stats)[g] else 0;
  }

  /** The GROUP BY p.name group of `name`. Its SUMs are NULL when the left
      join found no game row for it, and such a row cannot be scanned. */
  function CareerGroup(db: Db, name: string): Option<CareerStats> {
    var gs := GamesOfName(db.players, db.gameStats, name);
    if gs == [] then None else Some(CareerStats(name, LineOf(Sum(gs))))
  }

  function Groups(db: Db, names: seq<string>): (r: seq<Option<CareerStats>>)
    ensures |r| == |names|
    ensures forall i :: 0 <= i < |r| ==> r[i] == CareerGroup(db, names[i])
  {
    seq(|names|, i requires 0 <= i < |names| => CareerGroup(db, names[i]))
  }

  /** The rows that hold a value. */
  function Present<T(!new)>(rows: seq<Option<T>>): (r: seq<T>)
    ensures forall x :: x in r <==> Some(x) in rows
  {
    if rows == [] then []
    else
      var init := rows[..|rows| - 1];
      var last := rows[|rows| - 1];
      assert rows == init + [last];
      Present(init) + (if last.Some? then [last.value] else [])
  }

  /** The NULL rows, which ORDER BY … DESC places after all the others. */
  function Absent<T(!new)>(rows: seq<Option<T>>): (r: seq<Option<T>>)
    ensures forall i :: 0 <= i < |r| ==> r[i].None?
    ensures r == [] <==> forall x :: x in rows ==> x.Some?
  {
    if rows == [] then []
    else
      var init := rows[..|rows| - 1];
      var last := rows[|rows| - 1];
      assert rows == init + [last];
      assert forall x :: x in rows <==> x in init || x == last;
      if last.None? then assert last in rows && !last.Some?; Absent(init) + [last] else Absent(init)
  }

  function Wrap<T>(xs: seq<T>): (r: seq<Option<T>>)
    ensures |r| == |xs|
    ensures forall i :: 0 <= i < |xs| ==> r[i] == Some(xs[i])
  {
    seq(|xs|, i requires 0 <= i < |xs| => Some(xs[i]))
  }

  /** The rows of the GetCurrentPlayerCareerStats query: one group per
      distinct player name, ORDER BY career_passing_yards DESC. */
  function CareerQuery(db: Db): seq<Option<CareerStats>> {
    var groups := Groups(db, Distinct(Names(db.players)));
    Wrap(SortDesc(Present(groups), PassingYardsOf)) + Absent(groups)
  }

  /** GetCurrentPlayerCareerStats: the scanned rows of the query. */
  function CurrentPlayerCareerStats(db: Db): (r: Result<seq<CareerStats>>)
    ensures r.Err? ==> r.error == NullScan
  {
    Scanned(CareerQuery(db))
  }

  /** Every name's group holds a value exactly when every player's name has
      at least one game row. */
  lemma {:induction false} GroupsPresent(db: Db)
    ensures (forall x :: x in Groups(db, Distinct(Names(db.players))) ==> x.Some?) <==>
      forall p :: p in db.players ==> GamesOfName(db.players, db.gameStats, p.name) != []
  {
    var names := Distinct(Names(db.players));
    var groups := Groups(db, names);
    if forall x :: x in groups ==> x.Some? {
      forall p | p in db.players
        ensures GamesOfName(db.players, db.gameStats, p.name) != []
      {
        assert p.name in names;
        var i :| 0 <= i < |names| && names[i] == p.name;
        assert groups[i] in groups;
      }
    }
    if forall p :: p in db.players ==> GamesOfName(db.players, db.gameStats, p.name) != [] {
      forall x | x in groups
        ensures x.Some?
      {
        var i :| 0 <= i < |groups| && groups[i] == x;
        assert names[i] in Names(db.players);
      }
    }
  }

  /** Scanning the sorted present rows followed by the NULL rows succeeds
      exactly when no row is NULL, and then gives the sorted rows. */
  lemma ScanSortedGroups<T(!new)>(groups: seq<Option<T>>, key: T -> int)
    ensures var rows := Wrap(SortDesc(Present(groups), key)) + Absent(groups);
      Scanned(rows).Ok? <==> forall x :: x in groups ==> x.Some?
    ensures var rows := Wrap(SortDesc(Present(groups), key)) + Absent(groups);
      Scanned(rows).Ok? ==> Scanned(rows).value == SortDesc(Present(groups), key)
  {
    var sorted := SortDesc(Present(groups), key);
    var rows := Wrap(sorted) + Absent(groups);
    if forall x :: x in groups ==> x.Some? {
      assert rows == Wrap(sorted);
      forall x | x in rows
        ensures x.Some?
      {
        var i :| 0 <= i < |rows| && rows[i] == x;
      }
      var v := Scanned(rows).value;
      assert forall i :: 0 <= i < |v| ==> v[i] == sorted[i] by {
        forall i | 0 <= i < |v|
          ensures v[i] == sorted[i]
        {
          assert rows[i] == Some(v[i]);
        }
      }
      assert v == sorted;
    } else {
      var a := Absent(groups);
      assert rows[|Wrap(sorted)|] == a[0];
    }
  }

  /** The career query fails exactly when some player's name has no game row
      (the LEFT JOIN leaves its SUMs NULL), and then with NullScan. */
  lemma CareerStatsOutcome(db: Db)
    ensures CurrentPlayerCareerStats(db).Ok? <==>
      forall p :: p in db.players ==> GamesOfName(db.players, db.gameStats, p.name) != []
    ensures CurrentPlayerCareerStats(db).Err? ==> CurrentPlayerCareerStats(db).error == NullScan
  {
    ScanSortedGroups(Groups(db, Distinct(Names(db.players))), PassingYardsOf);
    GroupsPresent(db);
  }

  /** A present group row holds the sums of the game rows of its name. */
  lemma GroupRow(db: Db, names: seq<string>, s: CareerStats)
    requires s in Present(Groups(db, names))
    ensures GamesOfName(db.players, db.gameStats, s.playerName) != []
    ensures s.career == LineOf(Sum(GamesOfName(db.players, db.gameStats, s.playerName)))
  {
    var groups := Groups(db, names);
    var i :| 0 <= i < |groups| && groups[i] == Some(s);
    assert CareerGroup(db, names[i]) == Some(s);
  }

  /** A listed name with game rows has a present group row. */
  lemma NameRow(db: Db, names: seq<string>, n: string)
    requires n in names && GamesOfName(db.players, db.gameStats, n) != []
    ensures exists s :: s in Present(Groups(db, names)) && s.playerName == n
  {
    var groups := Groups(db, names);
    var i :| 0 <= i < |names| && names[i] == n;
    assert groups[i] in groups;
    assert groups[i].value in Present(groups);
  }

  /** A successful scan holds the present group rows, sorted. */
  lemma CareerStatsValue(db: Db)
    requires CurrentPlayerCareerStats(db).Ok?
    ensures CurrentPlayerCareerStats(db).value ==
      SortDesc(Present(Groups(db, Distinct(Names(db.players)))), PassingYardsOf)
  {
    ScanSortedGroups(Groups(db, Distinct(Names(db.players))), PassingYardsOf);
  }

  /** Every sorted group row holds the sums of the game rows of its name. */
  lemma SortedGroupRows(db: Db, names: seq<string>)
    ensures forall s :: s in SortDesc(Present(Groups(db, names)), PassingYardsOf) ==>
      var gs := GamesOfName(db.players, db.gameStats, s.playerName);
      gs != [] && s.career == LineOf(Sum(gs))
  {
    var sorted := SortDesc(Present(Groups(db, names)), PassingYardsOf);
    forall s | s in sorted
      ensures GamesOfName(db.players, db.gameStats, s.playerName) != []
      ensures s.career == LineOf(Sum(GamesOfName(db.players, db.gameStats, s.playerName)))
    {
      assert s in multiset(Present(Groups(db, names)));
      GroupRow(db, names, s);
    }
  }

  /** Every listed name with game rows has a sorted group row. */
  lemma SortedNameRows(db: Db, names: seq<string>)
    ensures forall n :: n in names && GamesOfName(db.players, db.gameStats, n) != [] ==>
      exists s :: s in SortDesc(Present(Groups(db, names)), PassingYardsOf) && s.playerName == n
  {
    var groups := Groups(db, names);
    var sorted := SortDesc(Present(groups), PassingYardsOf);
    forall n | n in names && GamesOfName(db.players, db.gameStats, n) != []
      ensures exists s :: s in sorted && s.playerName == n
    {
      NameRow(db, names, n);
      var s: CareerStats :| s in Present(groups) && s.playerName == n;
      assert s in multiset(sorted);
    }
  }

  /** When it succeeds, the report is ordered by career passing yards,
      holds exactly one row for every player's name, and every row holds
      the sums of the game rows of the players of that name. */
  lemma CareerStatsRows(db: Db)
    requires CurrentPlayerCareerStats(db).Ok?
    ensures NonIncreasing(CurrentPlayerCareerStats(db).value, PassingYardsOf)
    ensures DistinctBy(CurrentPlayerCareerStats(db).value, PlayerNameOf)
    ensures forall p :: p in db.players ==>
      exists s :: s in CurrentPlayerCareerStats(db).value && s.playerName == p.name
    ensures forall s :: s in CurrentPlayerCareerStats(db).value ==>
      var gs := GamesOfName(db.players, db.gameStats, s.playerName);
      gs != [] && s.career == LineOf(Sum(gs))
  {
    var names := Distinct(Names(db.players));
    CareerStatsOutcome(db);
    CareerStatsValue(db);
    SortedGroupRows(db, names);
    SortedNameRows(db, names);
    CoalescedAgrees(db);
    CoalescedNamesDistinct(db);
    forall p | p in db.players
      ensures p.name in names
    {
      assert p.name in Names(db.players);
    }
  }

  /** Scanning rows that all hold a value gives those values, in order. */
  lemma {:induction false} PresentAllSome<T(!new)>(rows: seq<Option<T>>)
    requires forall x :: x in rows ==> x.Some?
    ensures |Present(rows)| == |rows|
    ensures forall i :: 0 <= i < |rows| ==> rows[i] == Some(Present(rows)[i])
  {
    if rows != [] {
      var init := rows[..|rows| - 1];
      assert rows == init + [rows[|rows| - 1]];
      assert forall x :: x in init ==> x in rows;
      assert rows[|rows| - 1] in rows;
      PresentAllSome(init);
    }
  }

  /** The career row of `name` with every SUM wrapped in COALESCE(…, 0): a
      name without game rows gets a row of zeros instead of NULLs. */
  function CoalescedGroup(db: Db, name: string): CareerStats {
    CareerStats(name, LineOf(Sum(GamesOfName(db.players, db.gameStats, name))))
  }

  function CoalescedGroups(db: Db, names: seq<string>): (r: seq<CareerStats>)
    ensures |r| == |names|
    ensures forall i :: 0 <= i < |r| ==> r[i] == CoalescedGroup(db, names[i])
  {
    seq(|names|, i requires 0 <= i < |names| => CoalescedGroup(db, names[i]))
  }

  /** GetCurrentPlayerCareerStats as the LEFT JOIN evidently intends: every
      player's name is listed, one without game rows with zero totals. */
  function CoalescedCareerStats(db: Db): (r: seq<CareerStats>)
    ensures |r| == |Distinct(Names(db.players))|
    ensures NonIncreasing(r, PassingYardsOf)
  {
    SortDesc(CoalescedGroups(db, Distinct(Names(db.players))), PassingYardsOf)
  }

  /** The corrected report never fails: it is ordered by career passing
      yards, lists every player's name exactly once, and each row holds the
      sums of the game rows of the players of that name (zero when there
      are none). */
  lemma CoalescedCareerStatsRows(db: Db)
    ensures NonIncreasing(CoalescedCareerStats(db), PassingYardsOf)
    ensures DistinctBy(CoalescedCareerStats(db), PlayerNameOf)
    ensures forall p :: p in db.players ==>
      exists s :: s in CoalescedCareerStats(db) && s.playerName == p.name
    ensures forall s :: s in CoalescedCareerStats(db) ==>
      && (exists p :: p in db.players && p.name == s.playerName)
      && s.career == LineOf(Sum(GamesOfName(db.players, db.gameStats, s.playerName)))
  {
    CoalescedNameRows(db);
    CoalescedRowSums(db);
    CoalescedNamesDistinct(db);
  }

  /** GROUP BY p.name: no two rows of the corrected report share a name. */
  lemma CoalescedNamesDistinct(db: Db)
    ensures DistinctBy(CoalescedCareerStats(db), PlayerNameOf)
  {
    var names := Distinct(Names(db.players));
    var rows := CoalescedGroups(db, names);
    assert DistinctBy(rows, PlayerNameOf) by {
      forall i, j | 0 <= i < j < |rows|
        ensures PlayerNameOf(rows[i]) != PlayerNameOf(rows[j])
      {
        assert rows[i].playerName == names[i] && rows[j].playerName == names[j];
      }
    }
    PermutationDistinctBy(rows, CoalescedCareerStats(db), PlayerNameOf);
  }

  /** Every player's name has a row in the corrected report. */
  lemma CoalescedNameRows(db: Db)
    ensures forall p :: p in db.players ==>
      exists s :: s in CoalescedCareerStats(db) && s.playerName == p.name
  {
    var names := Distinct(Names(db.players));
    var rows := CoalescedGroups(db, names);
    var r := CoalescedCareerStats(db);
    forall p | p in db.players
      ensures exists s :: s in r && s.playerName == p.name
    {
      assert p.name in Names(db.players);
      var i :| 0 <= i < |names| && names[i] == p.name;
      assert rows[i] in multiset(r);
    }
  }

  /** Every row of the corrected report is a player's name with the sums of
      that name's game rows. */
  lemma CoalescedRowSums(db: Db)
    ensures forall s :: s in CoalescedCareerStats(db) ==>
      && (exists p :: p in db.players && p.name == s.playerName)
      && s.career == LineOf(Sum(GamesOfName(db.players, db.gameStats, s.playerName)))
  {
    var names := Distinct(Names(db.players));
    var rows := CoalescedGroups(db, names);
    forall s | s in CoalescedCareerStats(db)
      ensures exists p :: p in db.players && p.name == s.playerName
      ensures s.career == LineOf(Sum(GamesOfName(db.players, db.gameStats, s.playerName)))
    {
      assert s in multiset(rows);
      var i :| 0 <= i < |rows| && rows[i] == s;
      assert names[i] in Names(db.players);
    }
  }

  /** Wherever the query as written succeeds, the corrected one returns the
      same rows in the same order. */
  lemma CoalescedAgrees(db: Db)
    requires CurrentPlayerCareerStats(db).Ok?
    ensures CurrentPlayerCareerStats(db).value == CoalescedCareerStats(db)
  {
    var groups := Groups(db, Distinct(Names(db.players)));
    CareerStatsValue(db);
    ScanSortedGroups(groups, PassingYardsOf);
    PresentGroupsCoalesced(db, Distinct(Names(db.players)));
  }

  /** When every group holds a value, the present groups are the coalesced
      rows. */
  lemma PresentGroupsCoalesced(db: Db, names: seq<string>)
    requires forall x :: x in Groups(db, names) ==> x.Some?
    ensures Present(Groups(db, names)) == CoalescedGroups(db, names)
  {
    var groups := Groups(db, names);
    PresentAllSome(groups);
    var present := Present(groups);
    var rows := CoalescedGroups(db, names);
    forall i | 0 <= i < |rows|
      ensures present[i] == rows[i]
    {
      assert groups[i] == CareerGroup(db, names[i]);
    }
  }

  /** A lone player without game rows makes the report as written fail, where
      the corrected report lists that player with zero totals. */
  lemma PlayerWithoutGamesFailsCareerStats(p: PlayerRow)
    ensures CurrentPlayerCareerStats(Db([], [p], [], [])).Err?
    ensures CoalescedCareerStats(Db([], [p], [], [])) == [CareerStats(p.name, LineOf(NoTotals))]
  {
    LonePlayerFails(p);
    LonePlayerCoalesced(p);
  }

  /** A lone player with no game rows has an empty group. */
  lemma LonePlayerNoGames(p: PlayerRow)
    ensures GamesOfName([p], [], p.name) == []
  {
    assert [p][..0] == [];
  }

  /** The report as written fails for that player. */
  lemma LonePlayerFails(p: PlayerRow)
    ensures CurrentPlayerCareerStats(Db([], [p], [], [])).Err?
  {
    var db := Db([], [p], [], []);
    LonePlayerNoGames(p);
    CareerStatsOutcome(db);
    assert p in db.players;
  }

  /** The report groups by name, so a player without game rows does not
      make it fail when another player row with the same name has one. */
  lemma SharedNameSucceeds(a: PlayerRow, b: PlayerRow, g: GameStatRow)
    requires a.name == b.name && g.playerId == a.playerId
    ensures CurrentPlayerCareerStats(Db([], [a, b], [g], [])).Ok?
  {
    var db := Db([], [a, b], [g], []);
    CareerStatsOutcome(db);
    assert g in GamesOfName(db.players, db.gameStats, a.name);
  }

  /** The corrected report lists that player with zero totals. */
  lemma LonePlayerCoalesced(p: PlayerRow)
    ensures CoalescedCareerStats(Db([], [p], [], [])) == [CareerStats(p.name, LineOf(NoTotals))]
  {
    var db := Db([], [p], [], []);
    LonePlayerNoGames(p);
    assert Names(db.players) == [p.name] by {
      assert [p][..0] == [];
    }
    assert Distinct([p.name]) == [p.name];
    var row := CareerStats(p.name, LineOf(NoTotals));
    assert CoalescedGroups(db, [p.name]) == [row];
    assert SortDesc([row], PassingYardsOf) == InsertDesc(row, SortDesc([], PassingYardsOf), PassingYardsOf);
  }

  // ---------------------------------------------------------------------
  // The career record ceiling (GetCareerRecords)

  /** The columns of `historicalrecords` that GetCareerRecords reads. */
  datatype HistColumn =
    | Completions | PassingYards | Touchdowns | RushYards | RushTds
    | ReceivingYards | ReceivingTds

  function Cell(h: HistoricalRow, c: HistColumn): Option<int> {
    match c
    case Completions => h.completions
    case PassingYards => h.passingYards
    case Touchdowns => h.touchdowns
    case RushYards => h.rushYards
    case RushTds => h.rushTds
    case ReceivingYards => h.receivingYards
    case ReceivingTds => h.receivingTds
  }

  /** `m` is the largest set value of column `c`. */
  ghost predicate IsColumnMax(hist: seq<HistoricalRow>, c: HistColumn, m: int) {
    && (exists h :: h in hist && Cell(h, c) == Some(m))
    && (forall h :: h in hist && Cell(h, c).Some? ==> Cell(h, c).value <= m)
  }

  /** No row of the table sets column `c`. */
  ghost predicate Unset(hist: seq<HistoricalRow>, c: HistColumn) {
    forall h :: h in hist ==> Cell(h, c).None?
  }

  /** MAX(c) over the table: NULL unless some row sets the column. */
  function ColumnMax(hist: seq<HistoricalRow>, c: HistColumn): (m: Option<int>)
    ensures m.None? <==> Unset(hist, c)
  {
    if hist == [] then None
    else
      var init := hist[..|hist| - 1];
      var last := hist[|hist| - 1];
      assert hist == init + [last];
      var m := ColumnMax(init, c);
      match Cell(last, c)
      case None => m
      case Some(v) => if m.Some? && m.value >= v then m else Some(v)
  }

  /** A set MAX(c) is a set value of the column that no set value exceeds. */
  lemma {:induction false} ColumnMaxIsMax(hist: seq<HistoricalRow>, c: HistColumn)
    requires ColumnMax(hist, c).Some?
    ensures IsColumnMax(hist, c, ColumnMax(hist, c).value)
  {
    var init := hist[..|hist| - 1];
    var last := hist[|hist| - 1];
    assert hist == init + [last];
    if ColumnMax(init, c).Some? {
      ColumnMaxIsMax(init, c);
    }
  }

  /** CareerRecords. */
  datatype CareerRecords = CareerRecords(
    maxCompletions: int, maxPassingYards: int, maxPassingTds: int,
    maxRushingYards: int, maxRushingTds: int,
    maxReceivingYards: int, maxReceivingTds: int)

  /** The field of the ceiling that holds the maximum of column `c`: passing
      touchdowns come from `touchdowns`, rushing yards from `rush_yards`. */
  function Ceiling(rec: CareerRecords, c: HistColumn): int {
    match c
    case Completions => rec.maxCompletions
    case PassingYards => rec.maxPassingYards
    case Touchdowns => rec.maxPassingTds
    case RushYards => rec.maxRushingYards
    case RushTds => rec.maxRushingTds
    case ReceivingYards => rec.maxReceivingYards
    case ReceivingTds => rec.maxReceivingTds
  }

  /** GetCareerRecords: the MAX of each column, scanned into the ceiling. */
  function CareerRecordsOf(hist: seq<HistoricalRow>): (r: Result<CareerRecords>)
    ensures r.Err? ==> r.error == NullScan
  {
    var completions := ColumnMax(hist, Completions);
    var passingYards := ColumnMax(hist, PassingYards);
    var touchdowns := ColumnMax(hist, Touchdowns);
    var rushYards := ColumnMax(hist, RushYards);
    var rushTds := ColumnMax(hist, RushTds);
    var receivingYards := ColumnMax(hist, ReceivingYards);
    var receivingTds := ColumnMax(hist, ReceivingTds);
    if && completions.Some? && passingYards.Some? && touchdowns.Some?
       && rushYards.Some? && rushTds.Some? && receivingYards.Some? && receivingTds.Some?
    then
      Ok(CareerRecords(
        completions.value, passingYards.value, touchdowns.value, rushYards.value,
        rushTds.value, receivingYards.value, receivingTds.value))
    else
      Err(NullScan)
  }

  /** Each field of the ceiling is the MAX of its column over the historical
      table, ignoring unset values; a column that no row sets (in particular
      any column of an empty table) gives a NULL that cannot be scanned. */
  lemma CareerRecordsCeiling(hist: seq<HistoricalRow>)
    ensures CareerRecordsOf(hist).Err? <==> exists c :: Unset(hist, c)
    ensures CareerRecordsOf(hist).Err? ==> CareerRecordsOf(hist).error == NullScan
    ensures CareerRecordsOf(hist).Ok? ==>
      forall c :: IsColumnMax(hist, c, Ceiling(CareerRecordsOf(hist).value, c))
  {
    var r := CareerRecordsOf(hist);
    if r.Ok? {
      forall c
        ensures IsColumnMax(hist, c, Ceiling(r.value, c))
      {
        assert ColumnMax(hist, c).Some? && Ceiling(r.value, c) == ColumnMax(hist, c).value by {
          match c
          case Completions =>
          case PassingYards =>
          case Touchdowns =>
          case RushYards =>
          case RushTds =>
          case ReceivingYards =>
          case ReceivingTds =>
        }
        ColumnMaxIsMax(hist, c);
      }
    } else {
      var c :| ColumnMax(hist, c).None?;
      assert Unset(hist, c);
    }
  }

  // ---------------------------------------------------------------------
  // Historical records against current players (GetComparisonWithHistoricalRecords)

  /** A row of ComparisonReport. */
  datatype ComparisonReport = ComparisonReport(
    historicalPlayer: string, yearStart: int, yearEnd: int,
    historicalCompletions: int, currentPlayer: string, currentCompletions: int)

  function CurrentCompletionsOf(c: ComparisonReport): int {
    c.currentCompletions
  }

  /** The GROUP BY key of a historical row: player name, years and
      completions (the current player's name, the other grouping column, is
      either the same name or NULL). */
  datatype HistKey = HistKey(playerName: string, yearStart: int, yearEnd: int, completions: Option<int>)

  function KeyOf(h: HistoricalRow): HistKey {
    HistKey(h.playerName, h.yearStart, h.yearEnd, h.completions)
  }

  /** The key of each historical row, in table order. */
  function Keys(hist: seq<HistoricalRow>): (r: seq<HistKey>)
    ensures forall k :: k in r <==> exists h :: h in hist && KeyOf(h) == k
  {
    if hist == [] then []
    else
      var init := hist[..|hist| - 1];
      assert hist == init + [hist[|hist| - 1]];
      Keys(init) + [KeyOf(hist[|hist| - 1])]
  }

  /** Some current player has this exact name (LEFT JOIN players c ON
      c.name = h.player_name matched). */
  predicate HasPlayer(players: seq<PlayerRow>, name: string) {
    exists p :: p in players && p.name == name
  }

  /** The output row of one group: COALESCE(h.completions, 0), COALESCE(c.name,
      'N/A'), and COALESCE(SUM(g.completions), 0), where the sum runs over
      every joined row of the group: each historical row with this key, times
      every game row of every player of that name. */
  function ComparisonRow(db: Db, k: HistKey): ComparisonReport {
    ComparisonReport(
      k.playerName, k.yearStart, k.yearEnd, k.completions.GetOr(0),
      if HasPlayer(db.players, k.playerName) then k.playerName else "N/A",
      multiset(Keys(db.historical))[k] *
        Sum(GamesOfName(db.players, db.gameStats, k.playerName)).completions)
  }

  function ComparisonRows(db: Db, keys: seq<HistKey>): (r: seq<ComparisonReport>)
    ensures |r| == |keys|
    ensures forall i :: 0 <= i < |r| ==> r[i] == ComparisonRow(db, keys[i])
  {
    seq(|keys|, i requires 0 <= i < |keys| => ComparisonRow(db, keys[i]))
  }

  /** The current completions of the group row of key `k`. */
  function KeyCompletions(db: Db, k: HistKey): int {
    ComparisonRow(db, k).currentCompletions
  }

  /** The GROUP BY keys in output order: each distinct key once, ORDER BY
      current_completions DESC. */
  function ComparisonKeys(db: Db): (r: seq<HistKey>)
    ensures multiset(r) == multiset(Distinct(Keys(db.historical)))
    ensures NonIncreasing(r, k => KeyCompletions(db, k))
  {
    SortDesc(Distinct(Keys(db.historical)), k => KeyCompletions(db, k))
  }

  /** GetComparisonWithHistoricalRecords: the row of each group, in that
      order. */
  function HistoricalComparison(db: Db): (r: seq<ComparisonReport>)
    ensures |r| == |ComparisonKeys(db)|
  {
    ComparisonRows(db, ComparisonKeys(db))
  }

  /** `c` reports the historical record `h`, an unset completions value as 0. */
  predicate Reports(c: ComparisonReport, h: HistoricalRow) {
    && c.historicalPlayer == h.playerName && c.yearStart == h.yearStart
    && c.yearEnd == h.yearEnd && c.historicalCompletions == h.completions.GetOr(0)
  }

  /** The ordered keys are exactly the keys of the historical records, each
      once. */
  lemma ComparisonKeysDistinct(db: Db)
    ensures NoDuplicates(ComparisonKeys(db))
    ensures forall k :: k in ComparisonKeys(db) <==> exists h :: h in db.historical && KeyOf(h) == k
  {
    var keys := Distinct(Keys(db.historical));
    var sorted := ComparisonKeys(db);
    assert DistinctBy(keys, (k: HistKey) => k);
    PermutationDistinctBy(keys, sorted, (k: HistKey) => k);
    forall k
      ensures k in sorted <==> k in keys
    {
      assert k in sorted <==> k in multiset(sorted);
    }
  }

  /** Every historical record is reported by a row of the comparison. */
  lemma RecordReported(db: Db, h: HistoricalRow)
    requires h in db.historical
    ensures exists c :: c in HistoricalComparison(db) && Reports(c, h)
  {
    var keys := ComparisonKeys(db);
    var rows := HistoricalComparison(db);
    ComparisonKeysDistinct(db);
    assert KeyOf(h) in keys;
    var i :| 0 <= i < |keys| && keys[i] == KeyOf(h);
    assert Reports(rows[i], h);
  }

  /** One row per group, in group order: the rows are the group rows of the
      keys of the historical records, each key once, ordered by current
      completions, descending; every historical record is reported. */
  lemma HistoricalComparisonRows(db: Db)
    ensures NonIncreasing(HistoricalComparison(db), CurrentCompletionsOf)
    ensures var keys := ComparisonKeys(db);
      && NoDuplicates(keys)
      && (forall k :: k in keys <==> exists h :: h in db.historical && KeyOf(h) == k)
      && |HistoricalComparison(db)| == |keys|
      && forall i :: 0 <= i < |keys| ==> HistoricalComparison(db)[i] == ComparisonRow(db, keys[i])
    ensures forall h :: h in db.historical ==>
      exists c :: c in HistoricalComparison(db) && Reports(c, h)
  {
    var keys := ComparisonKeys(db);
    var rows := HistoricalComparison(db);
    ComparisonKeysDistinct(db);
    forall i, j | 0 <= i < j < |rows|
      ensures CurrentCompletionsOf(rows[i]) >= CurrentCompletionsOf(rows[j])
    {
      assert KeyCompletions(db, keys[i]) >= KeyCompletions(db, keys[j]);
    }
    forall h | h in db.historical
      ensures exists c :: c in rows && Reports(c, h)
    {
      RecordReported(db, h);
    }
  }

  /** A historical record whose player name matches no current player is
      reported against "N/A" with 0 current completions; one that matches
      is reported against that same name. */
  lemma {:induction false} ComparisonCurrentPlayer(db: Db, k: HistKey)
    ensures !HasPlayer(db.players, k.playerName) ==>
      ComparisonRow(db, k).currentPlayer == "N/A" && ComparisonRow(db, k).currentCompletions == 0
    ensures HasPlayer(db.players, k.playerName) ==>
      ComparisonRow(db, k).currentPlayer == k.playerName
  {
    var gs := GamesOfName(db.players, db.gameStats, k.playerName);
    if gs != [] {
      assert gs[0] in gs;
      assert HasPlayer(db.players, k.playerName);
    }
  }

  // ---------------------------------------------------------------------
  // Career totals against the ceiling (ComparePlayerStatsWithRecords)

  /** A row of ComparisonWithRecord. */
  datatype ComparisonWithRecord = ComparisonWithRecord(
    playerName: string,
    careerCompletions: int, recordCompletions: int,
    careerPassingYards: int, recordPassingYards: int,
    careerRushingYards: int, recordRushingYards: int,
    careerReceivingYards: int, recordReceivingYards: int)

  /** `c` pairs the career totals `s` with the ceiling `rec`. */
  predicate Pairs(c: ComparisonWithRecord, s: CareerStats, rec: CareerRecords) {
    && c.playerName == s.playerName
    && c.careerCompletions == s.career.completions
    && c.careerPassingYards == s.career.passingYards
    && c.careerRushingYards == s.career.rushingYards
    && c.careerReceivingYards == s.career.receivingYards
    && c.recordCompletions == rec.maxCompletions
    && c.recordPassingYards == rec.maxPassingYards
    && c.recordRushingYards == rec.maxRushingYards
    && c.recordReceivingYards == rec.maxReceivingYards
  }

  /** ComparePlayerStatsWithRecords, given the outcomes of GetCareerRecords
      and GetCurrentPlayerCareerStats: the first error, or one row per
      career row in the same order, each carrying the same record values. */
  method ComparePlayerStatsWithRecords(
    records: Result<CareerRecords>, playerStats: Result<seq<CareerStats>>)
    returns (r: Result<seq<ComparisonWithRecord>>)
    ensures records.Err? ==> r == Err(records.error)
    ensures records.Ok? && playerStats.Err? ==> r == Err(playerStats.error)
    ensures records.Ok? && playerStats.Ok? ==> r.Ok? && |r.value| == |playerStats.value|
    ensures records.Ok? && playerStats.Ok? ==> forall i :: 0 <= i < |r.value| ==>
      Pairs(r.value[i], playerStats.value[i], records.value)
  {
    if records.Err? {
      return Err(records.error);
    }
    if playerStats.Err? {
      return Err(playerStats.error);
    }
    var rec := records.value;
    var stats := playerStats.value;
    var comparisons: seq<ComparisonWithRecord> := [];
    var i := 0;
    while i < |stats|
      invariant 0 <= i <= |stats|
      invariant |comparisons| == i
      invariant forall k :: 0 <= k < i ==> Pairs(comparisons[k], stats[k], rec)
    {
      var s := stats[i];
      var comparison := ComparisonWithRecord(
        s.playerName,
        s.career.completions, rec.maxCompletions,
        s.career.passingYards, rec.maxPassingYards,
        s.career.rushingYards, rec.maxRushingYards,
        s.career.receivingYards, rec.maxReceivingYards);
      comparisons := comparisons + [comparison];
      i := i + 1;
    }
    return Ok(comparisons);
  }
}
