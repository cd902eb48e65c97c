/** The filtered schedule query of the schedule service
    (GetSchedulesWithFilters in services/schedule.go). */
module ScheduleService {
  import opened Tables
  import opened QueryBuilder

  const SchedulesBase := "SELECT * FROM schedule WHERE 1=1"

  /** The active filters: year when positive, then week when positive. */
  function ScheduleConditions(year: int, week: int): seq<Condition> {
    (if year > 0 then [Condition("year", Number(year))] else []) +
    (if week > 0 then [Condition("week", Number(week))] else [])
  }

  /** Builds the query and its arguments clause by clause. */
  method GetSchedulesWithFilters(year: int, week: int) returns (query: string, args: seq<Arg>)
    ensures query == Where(SchedulesBase, ScheduleConditions(year, week))
    ensures args == Args(ScheduleConditions(year, week))
  {
    query := "SELECT * FROM schedule WHERE 1=1";
    args := [];
    ghost var conds: seq<Condition> := [];
    if year > 0 {
      assert Clause(Condition("year", Number(year))) == " AND year = ?";
      query := query + " AND year = ?";
      args := args + [Number(year)];
      conds := conds + [Condition("year", Number(year))];
      assert query == Where(SchedulesBase, conds);
    }
    if week > 0 {
      assert Clause(Condition("week", Number(week))) == " AND week = ?";
      query := query + " AND week = ?";
      args := args + [Number(week)];
      conds := conds + [Condition("week", Number(week))];
      assert conds[..|conds| - 1] + [conds[|conds| - 1]] == conds;
      assert query == Where(SchedulesBase, conds);
    }
    assert conds == ScheduleConditions(year, week);
  }

  lemma BaseWithoutPlaceholders()
    ensures Placeholders(SchedulesBase) == 0
  {
    var a, b, c := "SELECT * ", "FROM schedule ", "WHERE 1=1";
    assert SchedulesBase == a + b + c;
    CountAbsent(a, '?');
    CountAbsent(b, '?');
    CountAbsent(c, '?');
    CountAppend(a, b, '?');
    CountAppend(a + b, c, '?');
  }

  /** The built query has one placeholder per argument; the arguments are
      the year, when positive, followed by the week, when positive. */
  lemma ScheduleFilterArgs(year: int, week: int)
    ensures var conds := ScheduleConditions(year, week);
      Placeholders(Where(SchedulesBase, conds)) == |Args(conds)|
    ensures Args(ScheduleConditions(year, week)) ==
      (if year > 0 then [Number(year)] else []) + (if week > 0 then [Number(week)] else [])
  {
    var conds := ScheduleConditions(year, week);
    assert forall c :: c in conds ==> c.column == "year" || c.column == "week";
    assert '?' !in "year" && '?' !in "week";
    WherePlaceholders(SchedulesBase, conds);
    BaseWithoutPlaceholders();
  }

  /** Without a positive year or week the query is the bare listing of
      the schedule, with no arguments. */
  lemma NoScheduleFilters(year: int, week: int)
    requires year <= 0 && week <= 0
    ensures Where(SchedulesBase, ScheduleConditions(year, week)) == "SELECT * FROM schedule WHERE 1=1"
    ensures Args(ScheduleConditions(year, week)) == []
  {
  }

  /** The year clause comes before the week clause. */
  lemma YearClauseFirst(year: int, week: int)
    requires year > 0 && week > 0
    ensures Where(SchedulesBase, ScheduleConditions(year, week)) ==
      "SELECT * FROM schedule WHERE 1=1" + " AND year = ?" + " AND week = ?"
  {
    var first, second := Condition("year", Number(year)), Condition("week", Number(week));
    var conds := ScheduleConditions(year, week);
    assert conds == [first, second];
    assert conds[..1] == [first] && [first][..0] == [];
    assert Where(SchedulesBase, [first]) == SchedulesBase + Clause(first);
    assert Clause(first) == " AND year = ?" && Clause(second) == " AND week = ?";
  }

  /** The value a schedule row holds in a filtered column. */
  function ScheduleColumn(s: ScheduleRow, column: string): Option<Arg> {
    if column == "year" then Some(Number(s.year))
    else if column == "week" then Some(Number(s.week))
    else None
  }

  /** The row satisfies every clause of the query. */
  predicate Selects(s: ScheduleRow, conds: seq<Condition>) {
    forall c :: c in conds ==> ScheduleColumn(s, c.column) == Some(c.arg)
  }

  /** The query selects exactly the games of the year (when positive) and
      of the week (when positive); a non-positive value filters nothing. */
  lemma ScheduleFilterMeaning(s: ScheduleRow, year: int, week: int)
    ensures Selects(s, ScheduleConditions(year, week)) <==>
      (year <= 0 || s.year == year) && (week <= 0 || s.week == week)
  {
    var conds := ScheduleConditions(year, week);
    if year > 0 {
      assert Condition("year", Number(year)) in conds;
    }
    if week > 0 {
      assert Condition("week", Number(week)) in conds;
    }
  }
}
