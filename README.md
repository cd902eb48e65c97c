# Dynasty tracker statistics engine, in Dafny

This project models the statistics and roster core of a college-football
dynasty tracker. That core is a Go service backed by MySQL.

- The report queries of `services/report.go` are written as pure functions
  over in-memory tables. Each table is a sequence of row datatypes:
  - season win/loss and points reports;
  - a player's yearly progression and career totals;
  - per-position efficiency metrics;
  - the comparison with historical record holders and the record ceiling;
  - per-game averages and the record-break projection;
  - the season top ten in one statistic.
- The loops that assemble results are methods with loop invariants:
  - the `for rows.Next()` scan (`Tables.ScanRows`);
  - the pairing of career totals with the ceiling
    (`CareerReports.ComparePlayerStatsWithRecords`).
- The roster writes of `services/player.go` are methods on a `Store` class
  that holds the `players` and `recruits` tables:
  - `AddPlayer` enforces the 85-player cap;
  - `PromoteRecruits` moves last year's recruits into `players` and
    deletes them from `recruits`.
- The filter builders of `services/player.go` and `services/schedule.go` are
  methods that grow the query text and its argument list in step.
- `extractID` of `main.go` is a pure function over the request path.

Modules:

| module | what it holds |
|---|---|
| `Tables` | The rows of the tables, the error outcomes, column sums, and scanning a result set. |
| `Collections` | GROUP BY (distinct values), ORDER BY (a stable sort by descending key and a sort of distinct keys), and LIMIT. |
| `SeasonReports` | Season reports and a player's yearly progression. |
| `CareerReports` | Career totals, the record ceiling, the historical comparison, and the pairing with the ceiling. |
| `Metrics` | Per-position metrics. |
| `Projection` | Averages and the projection. |
| `Ranking` | The season top ten. |
| `QueryBuilder` | The shape of a filtered query: its `?` placeholders and its arguments. |
| `PlayerService` | The player filter builder, `AddPlayer` and `PromoteRecruits`. |
| `ScheduleService` | The schedule filter builder. |
| `Routing` | `extractID`. |

### How the model reads the queries

- **Tables.** A table is a sequence of rows. A join keeps full multiplicity: a row that matches two rows on the other side appears twice.
- **NULL.** A NULL aggregate, such as the SUM or AVG of no rows or the MAX of a column that no row sets, cannot be scanned into a Go `int` or `float64`. The model gives that outcome as `Err(NullScan)`.
- **Store failures.** A failure of the store itself is `StoreUnavailable`. `PredictRecordBreak` and `ComparePlayerStatsWithRecords` receive the outcomes of the queries they call as parameters, so every failing combination is covered. The roster methods take a `Fault` parameter that names which store call fails.
- **Ordering.** `ORDER BY … DESC` with equal keys has no order fixed by SQL. The model sorts stably, and no property proved here depends on the order of ties.
- **Averages are per game.** `GetPlayerAverageStats` takes AVG over the player's game rows (services/report.go:309-319). The comment at services/report.go:354 calls them yearly averages, but `PredictRecordBreak` multiplies these per-game averages by the seasons remaining. The model does what the query does.
- **Empty aggregates.** A player without game rows makes `GetPlayerAverageStats` fail with a scan error, and so `PredictRecordBreak` fails as well. `GetCurrentPlayerCareerStats` groups by name, and SUM skips the NULL row that the LEFT JOIN adds for a player without games. So it fails only for a name none of whose player rows has game rows. An empty historical table makes `GetCareerRecords` fail. The career-stats case is recorded under Findings.

## Model

| member | source | states |
|---|---|---|
| Tables.Scanned | services/report.go:458-475 | Scanning succeeds exactly when no row holds a NULL aggregate. It then returns every row, in order. Otherwise it fails with NullScan. |
| Tables.ScanRows | services/report.go:458-475 | The `for rows.Next()` loop, which appends each scanned row and stops at the first that cannot be scanned, returns what `Scanned` specifies. |
| Collections.Distinct | services/report.go:446 | GROUP BY: the same values as the input, each once. |
| Collections.SortedDistinct | services/report.go:57-58 | GROUP BY … ORDER BY: the distinct values, strictly ascending, and exactly those of the input. |
| Collections.SortDesc | services/report.go:447 | ORDER BY … DESC: keys do not increase along the result, and the result is a permutation of the input. |
| Collections.Limit | services/report.go:600 | LIMIT n: a prefix of the rows, at most n long, and exactly n long when there are more than n rows. |
| Collections.Filter | services/report.go:137-138 | WHERE <condition>: exactly the rows that satisfy the condition, each as often as it occurs in the table. The year, team, player and position filters are instances of it. |
| SeasonReports.GamesOfYear | services/report.go:56-57 | The group of a year holds exactly the schedule rows of that year, each as often as it occurs in the table. |
| SeasonReports.GamesOfTeam | services/report.go:137-138 | WHERE team_id = ? keeps exactly the games of that team, each as often as it occurs in the table. |
| SeasonReports.TallyCounts | services/report.go:51-53 | Wins count exactly the results equal to "Win", and losses exactly those equal to "Loss". Wins, losses and all other results (a "Tie", say) add up to the number of games, so wins + losses never exceed the games. |
| SeasonReports.TallyPoints | services/report.go:54-55 | Points scored and allowed are the sums of team_points and of opponent_points over the group. |
| SeasonReports.SeasonYears | services/report.go:56-58 | The years of the groups are strictly ascending and are exactly the years that have a game. |
| SeasonReports.TeamPerformanceBySeason | services/report.go:49-80 | The report has one row per year that has a game, in ascending year order. Every listed year has games. Every row holds the tally of exactly that year's games. |
| SeasonReports.SeasonsCover | services/report.go:56-58 | Every game's year has a season row, and every season row has at least one game. |
| SeasonReports.TeamPerformance | services/report.go:18-47 | The report has the same groups and counts as the by-season report, with the points left at 0 because only year, wins and losses are scanned. |
| SeasonReports.TeamSeasonComparison | services/report.go:129-168 | The rows are ascending by year, every year of the team's games has a row, and each row tallies that team's games only. |
| SeasonReports.SeasonCounts | services/report.go:50-58 | A season row's year, its win and loss counts (by exact result text) and its point sums, all stated together over the games of that year. |
| SeasonReports.JoinSchedule | services/report.go:547-548 | A game row is paired with a year exactly when a schedule row with its schedule_id has that year. |
| SeasonReports.JoinScheduleCount | services/report.go:547-548 | The inner join pairs a game row with a year once per schedule row of its schedule_id and that year, times the number of copies of the game row. |
| SeasonReports.GamesOfPlayer | services/report.go:549 | WHERE player_id = ? keeps exactly that player's game rows, each as often as it occurs in the table. |
| SeasonReports.StatsOfYear | services/report.go:550 | A year's group holds exactly the joined game rows of that year, each as often as it was joined. |
| SeasonReports.JoinedYears | services/report.go:550-551 | The years are strictly ascending and are exactly the years of the joined rows. |
| SeasonReports.Progression | services/report.go:536-582 | The rows are strictly ascending by year. Each row has game rows in its year and holds their sums. Every joined row's year is listed, so a year without games is absent. |
| SeasonReports.YearlyRowsCover | services/report.go:550-551 | Every joined row's year has a yearly row, and every yearly row has game rows. |
| SeasonReports.ProgressionOnlyOwnGames | services/report.go:547-549 | Every summed game row is the requested player's own row, joined to a schedule row of that year. |
| SeasonReports.CareerProgression | services/report.go:536-582 | GetPlayerCareerProgression: the years strictly ascend and every listed year has game rows of the player. The sums of each row and the coverage of every year are stated by Progression and ProgressionOnlyOwnGames. |
| CareerReports.Names | services/report.go:444 | The names are exactly those of the player rows. |
| CareerReports.GamesOfName | services/report.go:444-446 | A name's group holds exactly the game rows of the players with that name. |
| CareerReports.GamesOfNameCount | services/report.go:444-446 | The LEFT JOIN on player_id repeats a game row once per player row with that name and that player id, so it counts once per such player row. |
| CareerReports.CareerStatsOutcome | services/report.go:433-478 | The career report succeeds exactly when every player's name has at least one game row. Otherwise it fails with NullScan. |
| CareerReports.CareerStatsRows | services/report.go:433-478 | On success, the rows are ordered by career passing yards, descending. There is exactly one row per player's name: every name has a row and no name has two. Every row holds the sums of the game rows of the players with that name. |
| CareerReports.CurrentPlayerCareerStats | services/report.go:433-478 | GetCurrentPlayerCareerStats fails only with a scan error. When it fails and what its rows hold are stated by CareerStatsOutcome and CareerStatsRows. |
| CareerReports.ColumnMax | services/report.go:393-401 | MAX of a column is NULL exactly when no historical row sets that column. |
| CareerReports.ColumnMaxIsMax | services/report.go:393-401 | A set MAX is a value that some row sets, and no set value of the column exceeds it. |
| CareerReports.CareerRecordsCeiling | services/report.go:391-420 | The ceiling fails with NullScan exactly when some column is unset in every row. Otherwise each field is the MAX of its column: passing TDs come from `touchdowns` and rushing yards from `rush_yards`. |
| CareerReports.CareerRecordsOf | services/report.go:391-420 | GetCareerRecords fails only with a scan error. When it fails and which MAX each field is are stated by CareerRecordsCeiling. |
| CareerReports.Keys | services/report.go:187 | The grouping keys are exactly the keys of the historical rows. |
| CareerReports.RecordReported | services/report.go:184-188 | Every historical record is reported by some row, with unset completions shown as 0. |
| CareerReports.HistoricalComparisonRows | services/report.go:179-211 | There is exactly one row per distinct grouping key (name, years and completions of a record): every key has a row and no key has two. Every historical record appears with unset completions shown as 0, and rows are ordered by current completions, descending. |
| CareerReports.HistoricalComparison | services/report.go:179-211 | GetComparisonWithHistoricalRecords has one row per grouping key. The content of the rows is stated by HistoricalComparisonRows. |
| CareerReports.ComparisonKeys | services/report.go:187-188 | GROUP BY … ORDER BY current_completions DESC: the distinct keys of the historical rows, with current completions not increasing. |
| CareerReports.ComparisonKeysDistinct | services/report.go:187 | No key is grouped twice, and the keys are exactly those of the historical rows. |
| CareerReports.ComparisonCurrentPlayer | services/report.go:182-186 | A record whose name matches no current player is reported against "N/A" with 0 current completions. A matching record is reported against that same name. |
| CareerReports.ComparePlayerStatsWithRecords | services/report.go:492-523 | The ceiling's error comes first, then the career stats' error. Otherwise there is one row per career row, in the same order, with the career fields copied and the same four ceiling values in every row. |
| CareerReports.PlayerWithoutGamesFailsCareerStats | services/report.go:436-447 | A lone player row with no game rows makes the report as written fail, while the corrected report lists that player with zero totals. |
| CareerReports.SharedNameSucceeds | services/report.go:444-446 | Grouping by name: a player without game rows does not make the report fail when another player row with the same name has a game row. |
| CareerReports.CoalescedCareerStatsRows | services/report.go:433-447 | The corrected report is ordered by passing yards, descending. It has exactly one row per player's name, and each row holds the sums of that name's game rows, which are zero when there are none. |
| CareerReports.CoalescedCareerStats | services/report.go:433-447 | The corrected report has one row per distinct name, ordered by passing yards, descending. |
| CareerReports.CoalescedAgrees | services/report.go:433-447 | Wherever the report as written succeeds, the corrected report gives the same rows in the same order. |
| Metrics.Ratio | services/report.go:251-257 | `COALESCE(x / NULLIF(d, 0), 0)`: 0 when the denominator is 0, and otherwise the value times the denominator gives back the numerator. |
| Metrics.CompletionPercentage | services/report.go:251 | Completion percentage is 0 without pass attempts. Otherwise, times the attempts, it equals 100 × completions. |
| Metrics.YardsPerAttempt | services/report.go:252 | Yards per attempt is 0 without pass attempts. Otherwise, times the attempts, it equals the passing yards. |
| Metrics.QbRating | services/report.go:253 | The rating is 0 without pass attempts. Otherwise, times the attempts, it equals 8.4·yards + 330·TDs + 100·completions − 200·interceptions. |
| Metrics.YardsPerCarry | services/report.go:254 | Yards per carry is 0 without rush attempts. Otherwise, times the attempts, it equals the rushing yards. |
| Metrics.ScrimmageYardsSplit | services/report.go:254-256 | scrimmage_yards is rushing plus receiving yards, so it equals yards per carry × rush attempts plus yards per reception × receptions. yards_per_scrimmage × (rush attempts + receptions) gives it back. |
| Metrics.YardsPerScrimmage | services/report.go:256 | Yards per scrimmage play is 0 when rush attempts + receptions is 0. Otherwise, times that sum, it equals rushing + receiving yards. |
| Metrics.YardsPerReception | services/report.go:257 | Yards per reception is 0 without receptions. Otherwise, times the receptions, it equals the receiving yards. |
| Metrics.PlayersAt | services/report.go:260 | WHERE position = ? keeps exactly the players of the position. |
| Metrics.WithGames | services/report.go:259 | The inner join keeps exactly the names that have game rows. |
| Metrics.PositionNames | services/report.go:259-262 | The groups are strictly ordered by name and are exactly the names of players of the position with game rows. |
| Metrics.PositionReport | services/report.go:236-296 | The report is ordered by name. Each row is of the position and has game rows, its totals are the sums of those rows, and its metrics are computed from those sums. Every player of the position with game rows has a row. |
| Metrics.PlayerStatsByPosition | services/report.go:236-296 | GetPlayerStatsByPosition has one row per name in its groups, each of the requested position. The totals and metrics of the rows are stated by PositionReport and PlayerHasRow. |
| Metrics.PlayerHasRow | services/report.go:258-262 | A player of the position with game rows has a row under their name. |
| Projection.Average | services/report.go:311-317 | AVG over n rows, times n, is the total. |
| Projection.AveragesOf | services/report.go:310-319 | Each of the seven averages, times the number of game rows, is that column's total. |
| Projection.PlayerAverageStats | services/report.go:308-339 | The averages fail with NullScan exactly when the player has no game rows. Otherwise each average is per game: the column total over the number of game rows. |
| Projection.Trunc | services/report.go:368 | Go's `int(float64)` truncates toward zero. |
| Projection.PredictRecordBreak | services/report.go:353-379 | An averages error comes first, then a ceiling error, each beside the zero report. Otherwise there is no error, the player id is echoed, each prediction truncates average × seasons remaining, and each record field is the ceiling's. |
| Projection.NoSeasonsNoPrediction | services/report.go:366-376 | With no season remaining, every predicted value is 0. |
| Projection.ProjectWhole | services/report.go:368-374 | A whole-number average projects to exactly average × seasons. For example, 1200 yards over 3 seasons gives 3600. |
| Projection.ProjectMonotone | services/report.go:368-374 | For a non-negative average, more remaining seasons never give a smaller projection. |
| Ranking.SeasonGames | services/report.go:594-597 | A name's group holds exactly the game rows of players with that name whose game is a schedule row of the year. |
| Ranking.SeasonGamesCount | services/report.go:594-597 | A game row counts in a name's season once per player row with that name and player id and once per schedule row of its game in that year. |
| Ranking.SeasonNames | services/report.go:596-598 | The groups are exactly the names with game rows in the season. |
| Ranking.CandidateRows | services/report.go:592-598 | Every candidate sums the chosen column over its name's season games. Every player with season games has a candidate. |
| Ranking.TopRowRanked | services/report.go:599-600 | Every row kept by the ordering and the limit is one of the ranked rows. |
| Ranking.TopRowsCutoff | services/report.go:599-600 | A row is either kept, or all n kept rows rank at least as high. |
| Ranking.TopPlayersRows | services/report.go:589-622 | There are at most ten rows, the values do not increase, and no name appears twice. Each value is the chosen column summed over that name's game rows of the given year only. |
| Ranking.TopPlayersCutoff | services/report.go:598-600 | A player with games in the season is either listed, or all ten rows have at least that player's value. |
| Ranking.TopPlayersBySeason | services/report.go:589-622 | GetTopPlayersBySeason returns at most ten rows, in non-increasing value. Which rows they are is stated by TopPlayersRows and TopPlayersCutoff. |
| QueryBuilder.WherePlaceholders | services/player.go:95-105 | Each appended clause adds exactly one `?`. |
| PlayerService.GetPlayersWithFilters | services/player.go:94-105 | Building the query with `+=` and the arguments with append gives the base query followed by the active clauses, and their arguments in the same order. |
| PlayerService.PlayerFilterArgs | services/player.go:95-105 | The placeholder count equals the number of arguments. The position argument comes first exactly when the position is not empty, and the team argument comes last exactly when the team id is positive. |
| PlayerService.NoPlayerFilters | services/player.go:95-106 | With no filter the query is exactly "SELECT * FROM players WHERE 1=1", with no arguments. |
| PlayerService.PlayerFilterMeaning | services/player.go:98-105 | A row satisfies the clauses exactly when it has the position (if one is given) and the team (if a positive id is given). |
| PlayerService.Selected | services/player.go:128-134 | Only recruits of the recruitment year are selected. |
| PlayerService.Remaining | services/player.go:159 | Only recruits of other years remain after the delete. |
| PlayerService.SelectedAndRemaining | services/player.go:128-159 | The selected and the remaining recruits together are the original table. Every recruit of the year is selected, and every other recruit remains. |
| PlayerService.Promotions | services/player.go:149-152 | The i-th selected recruit becomes the player with id firstId + i. It copies name, position, overall, team and recruitment source, takes the recruit's class as class_year, and has 0 games played, games started and snaps. |
| PlayerService.Store.AddPlayer | services/player.go:42-66 | A failed count, a team already at 85 or more, or a failed insert leaves the tables unchanged and returns that error. Otherwise exactly one player is appended, with zeroed counters. |
| PlayerService.Store.PromoteRecruits | services/player.go:127-166 | A failed select changes nothing. A failed k-th insert returns with the first k−1 promotions kept, the next player id advanced by k−1, and no recruit deleted. A failed delete keeps every promotion, advances the id by the number selected, and deletes nothing. Success appends every selected recruit as a player and leaves only the recruits of other years. |
| PlayerService.AddKeepsCap | services/player.go:51-53 | A successful AddPlayer keeps every team that was within the cap within it. |
| PlayerService.PromotionCanExceedCap | services/player.go:141-152 | The promotion has no cap: a team of 85 with one recruit ends with 86 players. |
| ScheduleService.GetSchedulesWithFilters | services/schedule.go:73-84 | Building the query with `+=` and the arguments with append gives the base query followed by the active clauses, and their arguments in the same order. |
| ScheduleService.ScheduleFilterArgs | services/schedule.go:74-84 | The placeholder count equals the number of arguments. The arguments are the year when positive, followed by the week when positive. |
| ScheduleService.NoScheduleFilters | services/schedule.go:74-84 | With no positive year or week the query is exactly "SELECT * FROM schedule WHERE 1=1", with no arguments. |
| ScheduleService.YearClauseFirst | services/schedule.go:77-84 | With both filters, the year clause comes before the week clause. |
| ScheduleService.ScheduleFilterMeaning | services/schedule.go:77-84 | A row satisfies the clauses exactly when it is of the year (if positive) and of the week (if positive). A non-positive value filters nothing. |
| Routing.LastSegment | main.go:248-249 | The last segment contains no "/", ends the path, and follows a "/" unless it is the whole path. |
| Routing.Atoi | main.go:250 | A parsed value lies in the 64-bit int range, and the text starts with a digit or a sign. |
| Routing.AtoiShow | main.go:250 | Atoi reads back every number written in decimal, plain, with "+" or with "-", exactly when it lies in the 64-bit int range, and is not a number otherwise. |
| Routing.AtoiDigits | main.go:250 | For a digit string d, Atoi of d, of "+" + d and of "-" + d is the signed value of d exactly when d is not empty and the value fits in an int. So a bare "+" or "-" and an out-of-range numeral are not numbers. |
| Routing.AtoiLeadingZeros | main.go:250 | Leading zeros do not change the value: "007" gives 7. |
| Routing.AtoiRejects | main.go:250-253 | Text with a character that is neither a digit nor a leading sign is not a number. |
| Routing.ExtractIdShow | main.go:247-255 | A path ending in "/n" gives n, and one ending in "/-n" gives −n, so "/x/-3" gives −3. When n is beyond the int range the conversion fails and the id is 0. |
| Routing.ExtractId | main.go:247-255 | extractID always returns a value of the 64-bit int range. Which value is stated by ExtractIdShow, ExtractIdLastSegmentOnly and TrailingSlashGivesZero. |
| Routing.SegmentAfterSlash | main.go:248-249 | The last segment of `a + "/" + b` is that of `b`. |
| Routing.ExtractIdLastSegmentOnly | main.go:248-255 | The id depends only on the text after the last "/". |
| Routing.NoSlashWholePath | main.go:248-249 | A path without "/" is its own last segment. |
| Routing.TrailingSlashGivesZero | main.go:248-253 | A trailing "/" leaves an empty segment, which gives 0. |

## Left out

- I/O, the MySQL connection, and the log output (`fmt.Printf`) are not modelled. A failing database call appears only as the `StoreUnavailable` outcome: through a `Fault` parameter in the roster methods, and through `Result` parameters in the composed reports.
- SQL and number representation are not modelled:
  - MySQL collation: names are compared as exact strings, with no case folding.
  - DECIMAL results and their rounding, and float64: the metrics and averages are exact `real`s.
  - The nil-versus-empty slice returned for an empty result.
- The tie order of ORDER BY … DESC is not captured. SQL leaves it open, and the model sorts stably.
- GetSeasonSummary (services/report.go:92-119) is not part of this model. It is a plain filtered listing with no aggregation.
- GetPlayersWithFilters and GetSchedulesWithFilters: the model builds the query text and its arguments, and states which rows the clauses select. Executing the query and scanning `SELECT *` into a fixed list of fields is not modelled: the table schemas are not part of this model, so whether the column counts and orders match the scans cannot be stated.
- Projection.PredictRecordBreak: MySQL returns AVG of an integer column as a DECIMAL with 4 decimals, so the average 4/3 becomes 1.3333, and over 3 seasons the program gives int(3.9999) = 3. The model keeps the exact 4/3 and gives 4.
- PlayerService.Store.PromoteRecruits: a scan failure of one selected recruit row (services/player.go:143-147) is not modelled separately. Only failures of the select, the inserts and the delete are numbered by `Fault`.
- PlayerService.Store.AddPlayer: the race between the count and the insert under concurrent calls is not modelled, and neither is the absence of a transaction. The methods run one at a time.
- Routing.Atoi: models Go's 64-bit `int` range only; Atoi's distinction between a syntax error and a range error is collapsed into "not a number", since extractID treats both as 0.
- Ranking.TopPlayersBySeason: the category is an enumeration of the game-stat columns. The code checks the category against no allow-list and splices it into the SQL text (services/report.go:589-600); an arbitrary string there is outside the model. `ORDER BY stat_value DESC` has no tie-break by name, so the order of equal values is not stated.
- HTTP routing, JSON encoding and the CRUD services around the core are not part of this model.

## Findings

| source | as written | input that shows it | evidently intended | confidence | as-written member | corrected member |
|---|---|---|---|---|---|---|
| services/report.go:436-447, 458-468 | GetCurrentPlayerCareerStats LEFT JOINs players to their game rows and groups by name, so a name none of whose player rows has game rows forms a group whose SUMs are NULL. Scanning that NULL into an `int` fails, and the whole report fails with it. | One player row and no game rows. | The LEFT JOIN is there to list every player. A name without games should get zero totals, as `COALESCE(SUM(…), 0)` gives. | high (not executed) | CareerReports.PlayerWithoutGamesFailsCareerStats | CareerReports.CoalescedCareerStatsRows |
