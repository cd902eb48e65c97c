/** The player service (services/player.go): the filtered player query, and
    the two writes that change the roster, adding one player under the
    85-player cap and promoting last year's recruits into the players
    table. */
module PlayerService {
  import opened Tables
  import opened QueryBuilder

  // ---------------------------------------------------------------------
  // GetPlayersWithFilters

  const PlayersBase := "SELECT * FROM players WHERE 1=1"

  /** The active filters: position when it is not empty, then team when
      its id is positive. */
  function PlayerConditions(position: string, teamId: int): seq<Condition> {
    (if position != "" then [Condition("position", Text(position))] else []) +
    (if teamId > 0 then [Condition("team_id", Number(teamId))] else [])
  }

  /** Builds the query and its arguments clause by clause. */
  method GetPlayersWithFilters(position: string, teamId: int) returns (query: string, args: seq<Arg>)
    ensures query == Where(PlayersBase, PlayerConditions(position, teamId))
    ensures args == Args(PlayerConditions(position, teamId))
  {
    query := "SELECT * FROM players WHERE 1=1";
    args := [];
    ghost var conds: seq<Condition> := [];
    if position != "" {
      assert Clause(Condition("position", Text(position))) == " AND position = ?";
      query := query + " AND position = ?";
      args := args + [Text(position)];
      conds := conds + [Condition("position", Text(position))];
      assert query == Where(PlayersBase, conds);
    }
    if teamId > 0 {
      assert Clause(Condition("team_id", Number(teamId))) == " AND team_id = ?";
      query := query + " AND team_id = ?";
      args := args + [Number(teamId)];
      conds := conds + [Condition("team_id", Number(teamId))];
      assert conds[..|conds| - 1] + [conds[|conds| - 1]] == conds;
      assert query == Where(PlayersBase, conds);
    }
    assert conds == PlayerConditions(position, teamId);
  }

  /** The built query has one placeholder per argument; the position
      argument comes first exactly when the position is not empty, and the
      team argument comes last exactly when the team id is positive. */
  lemma PlayerFilterArgs(position: string, teamId: int)
    ensures var conds := PlayerConditions(position, teamId);
      Placeholders(Where(PlayersBase, conds)) == |Args(conds)|
    ensures var args := Args(PlayerConditions(position, teamId));
      position != "" <==> |args| > 0 && args[0] == Text(position)
    ensures var args := Args(PlayerConditions(position, teamId));
      teamId > 0 <==> |args| > 0 && args[|args| - 1] == Number(teamId)
  {
    var conds := PlayerConditions(position, teamId);
    assert forall c :: c in conds ==> c.column == "position" || c.column == "team_id";
    assert '?' !in "position" && '?' !in "team_id";
    WherePlaceholders(PlayersBase, conds);
    BaseWithoutPlaceholders();
  }

  lemma BaseWithoutPlaceholders()
    ensures Placeholders(PlayersBase) == 0
  {
    var a, b, c := "SELECT * ", "FROM players ", "WHERE 1=1";
    assert PlayersBase == a + b + c;
    CountAbsent(a, '?');
    CountAbsent(b, '?');
    CountAbsent(c, '?');
    CountAppend(a, b, '?');
    CountAppend(a + b, c, '?');
  }

  /** With neither filter the query is the bare base query, with no
      arguments. */
  lemma NoPlayerFilters(position: string, teamId: int)
    requires position == "" && teamId <= 0
    ensures Where(PlayersBase, PlayerConditions(position, teamId)) == "SELECT * FROM players WHERE 1=1"
    ensures Args(PlayerConditions(position, teamId)) == []
  {
  }

  /** The value a player row holds in a filtered column. */
  function PlayerColumn(p: PlayerRow, column: string): Option<Arg> {
    if column == "position" then Some(Text(p.position))
    else if column == "team_id" then Some(Number(p.teamId))
    else None
  }

  /** The row satisfies every clause of the query. */
  predicate Selects(p: PlayerRow, conds: seq<Condition>) {
    forall c :: c in conds ==> PlayerColumn(p, c.column) == Some(c.arg)
  }

  /** The query selects exactly the players of the position (when given)
      and of the team (when given). */
  lemma PlayerFilterMeaning(p: PlayerRow, position: string, teamId: int)
    ensures Selects(p, PlayerConditions(position, teamId)) <==>
      (position == "" || p.position == position) && (teamId <= 0 || p.teamId == teamId)
  {
    var conds := PlayerConditions(position, teamId);
    if position != "" {
      assert Condition("position", Text(position)) in conds;
    }
    if teamId > 0 {
      assert Condition("team_id", Number(teamId)) in conds;
    }
  }

  // ---------------------------------------------------------------------
  // AddPlayer and PromoteRecruits

  /** The maximum number of players per team. */
  const RosterLimit := 85

  /** SELECT COUNT(*) FROM players WHERE team_id = ?. */
  function TeamSize(players: seq<PlayerRow>, teamId: int): nat {
    if players == [] then 0
    else TeamSize(players[..|players| - 1], teamId) + (if players[|players| - 1].teamId == teamId then 1 else 0)
  }

  lemma {:induction false} TeamSizeAppend(a: seq<PlayerRow>, b: seq<PlayerRow>, teamId: int)
    ensures TeamSize(a + b, teamId) == TeamSize(a, teamId) + TeamSize(b, teamId)
  {
    if b == [] {
      assert a + b == a;
    } else {
      assert (a + b)[..|a + b| - 1] == a + b[..|b| - 1];
      TeamSizeAppend(a, b[..|b| - 1], teamId);
    }
  }

  /** The fields of models.Player that AddPlayer inserts. */
  datatype NewPlayer = NewPlayer(
    name: string, position: string, overall: int, classYear: string,
    teamId: int, recruitmentSource: string)

  /** The inserted row: the given fields, games_played, games_started and
      snaps_played 0, and the next AUTO_INCREMENT id. */
  function Admitted(p: NewPlayer, id: int): PlayerRow {
    PlayerRow(id, p.name, p.position, p.overall, 0, 0, 0, p.classYear, p.teamId, p.recruitmentSource)
  }

  /** A promoted recruit's row: its name, position, overall, class (as
      class_year), team and source, with zeroed counters. */
  function Promoted(r: RecruitRow, id: int): PlayerRow {
    Admitted(NewPlayer(r.playerName, r.position, r.overall, r.classYear, r.teamId, r.recruitmentSource), id)
  }

  /** The rows inserted for `rs`, numbered from `firstId`: one new player
      per recruit, in order, with consecutive ids, the recruit's name,
      position, overall, class, team and source, and zeroed counters. */
  function Promotions(rs: seq<RecruitRow>, firstId: int): (r: seq<PlayerRow>)
    ensures |r| == |rs|
    ensures forall i :: 0 <= i < |rs| ==>
      && r[i].playerId == firstId + i
      && r[i].name == rs[i].playerName && r[i].position == rs[i].position
      && r[i].overall == rs[i].overall && r[i].classYear == rs[i].classYear
      && r[i].teamId == rs[i].teamId && r[i].recruitmentSource == rs[i].recruitmentSource
      && r[i].gamesPlayed == 0 && r[i].gamesStarted == 0 && r[i].snapsPlayed == 0
  {
    seq(|rs|, i requires 0 <= i < |rs| => Promoted(rs[i], firstId + i))
  }

  /** Promoting one more recruit appends its player, with the next id. */
  lemma PromotionsStep(rs: seq<RecruitRow>, firstId: int, i: int)
    requires 0 <= i < |rs|
    ensures Promotions(rs[..i + 1], firstId) == Promotions(rs[..i], firstId) + [Promoted(rs[i], firstId + i)]
  {
    var a, b := Promotions(rs[..i + 1], firstId), Promotions(rs[..i], firstId) + [Promoted(rs[i], firstId + i)];
    assert |a| == |b|;
    forall k | 0 <= k < |a|
      ensures a[k] == b[k]
    {
      if k < i {
        assert a[k] == Promoted(rs[k], firstId + k);
      }
    }
  }

  /** SELECT … FROM recruits WHERE recruitment_year = ?, in table order. */
  function Selected(recruits: seq<RecruitRow>, year: int): (r: seq<RecruitRow>)
    ensures forall x :: x in r <==> x in recruits && x.recruitmentYear == year
  {
    if recruits == [] then []
    else
      var init := recruits[..|recruits| - 1];
      var last := recruits[|recruits| - 1];
      assert recruits == init + [last];
      Selected(init, year) + (if last.recruitmentYear == year then [last] else [])
  }

  /** The recruits table after DELETE FROM recruits WHERE recruitment_year = ?. */
  function Remaining(recruits: seq<RecruitRow>, year: int): (r: seq<RecruitRow>)
    ensures forall x :: x in r <==> x in recruits && x.recruitmentYear != year
  {
    if recruits == [] then []
    else
      var init := recruits[..|recruits| - 1];
      var last := recruits[|recruits| - 1];
      assert recruits == init + [last];
      Remaining(init, year) + (if last.recruitmentYear != year then [last] else [])
  }

  /** The promotion moves every recruit of the year and only those: the
      selected and the remaining recruits together are the original table. */
  lemma {:induction false} SelectedAndRemaining(recruits: seq<RecruitRow>, year: int)
    ensures multiset(Selected(recruits, year)) + multiset(Remaining(recruits, year)) == multiset(recruits)
    ensures forall x :: x in recruits && x.recruitmentYear == year ==> x in Selected(recruits, year)
    ensures forall x :: x in recruits && x.recruitmentYear != year ==> x in Remaining(recruits, year)
  {
    if recruits != [] {
      var init := recruits[..|recruits| - 1];
      var last := recruits[|recruits| - 1];
      assert recruits == init + [last];
      SelectedAndRemaining(init, year);
      assert multiset(recruits) == multiset(init) + multiset{last};
    }
  }

  /** Which store call fails, if any: the calls of one operation are
      numbered from 0 in the order the service makes them. */
  datatype Fault = NoFault | FailAt(call: nat)

  /** The players and recruits tables. */
  class Store {
    var players: seq<PlayerRow>
    var recruits: seq<RecruitRow>
    /** The player_id the next inserted player receives. */
    var nextPlayerId: int

    constructor(players: seq<PlayerRow>, recruits: seq<RecruitRow>, nextPlayerId: int)
      ensures this.players == players && this.recruits == recruits
      ensures this.nextPlayerId == nextPlayerId
    {
      this.players := players;
      this.recruits := recruits;
      this.nextPlayerId := nextPlayerId;
    }

    /** AddPlayer. Call 0 counts the team's players, call 1 inserts. A team
        that already has 85 players is refused and nothing is inserted. */
    method AddPlayer(p: NewPlayer, fault: Fault) returns (err: Option<Error>)
      modifies this
      ensures fault == FailAt(0) ==> err == Some(StoreUnavailable) && unchanged(this)
      ensures fault != FailAt(0) && TeamSize(old(players), p.teamId) >= RosterLimit ==>
        err == Some(RosterFull) && unchanged(this)
      ensures fault == FailAt(1) && TeamSize(old(players), p.teamId) < RosterLimit ==>
        err == Some(StoreUnavailable) && unchanged(this)
      ensures err.None? <==>
        fault != FailAt(0) && fault != FailAt(1) && TeamSize(old(players), p.teamId) < RosterLimit
      ensures err.None? ==>
        && players == old(players) + [Admitted(p, old(nextPlayerId))]
        && nextPlayerId == old(nextPlayerId) + 1
        && recruits == old(recruits)
    {
      if fault == FailAt(0) {
        return Some(StoreUnavailable);
      }
      var playerCount := TeamSize(players, p.teamId);
      if playerCount >= RosterLimit {
        return Some(RosterFull);
      }
      if fault == FailAt(1) {
        return Some(StoreUnavailable);
      }
      players := players + [Admitted(p, nextPlayerId)];
      nextPlayerId := nextPlayerId + 1;
      return None;
    }

    /** PromoteRecruits. Call 0 selects the recruits of the previous year,
        calls 1 to n insert them one by one, call n + 1 deletes them. A
        failed insert returns at once: the players inserted before it stay
        and no recruit is deleted. The roster cap is not checked. */
    method PromoteRecruits(currentYear: int, fault: Fault) returns (err: Option<Error>)
      modifies this
      ensures fault == FailAt(0) ==> err == Some(StoreUnavailable) && unchanged(this)
      ensures var sel := Selected(old(recruits), currentYear - 1);
        forall k :: 1 <= k <= |sel| && fault == FailAt(k) ==>
          && err == Some(StoreUnavailable)
          && players == old(players) + Promotions(sel[..k - 1], old(nextPlayerId))
          && nextPlayerId == old(nextPlayerId) + k - 1
          && recruits == old(recruits)
      ensures var sel := Selected(old(recruits), currentYear - 1);
        fault == FailAt(|sel| + 1) ==>
          && err == Some(StoreUnavailable)
          && players == old(players) + Promotions(sel, old(nextPlayerId))
          && nextPlayerId == old(nextPlayerId) + |sel|
          && recruits == old(recruits)
      ensures var sel := Selected(old(recruits), currentYear - 1);
        err.None? <==> fault.NoFault? || fault.call > |sel| + 1
      ensures var sel := Selected(old(recruits), currentYear - 1);
        err.None? ==>
          && players == old(players) + Promotions(sel, old(nextPlayerId))
          && nextPlayerId == old(nextPlayerId) + |sel|
          && recruits == Remaining(old(recruits), currentYear - 1)
    {
      var recruitmentYear := currentYear - 1;
      if fault == FailAt(0) {
        return Some(StoreUnavailable);
      }
      var selected := Selected(recruits, recruitmentYear);
      var i := 0;
      while i < |selected|
        invariant 0 <= i <= |selected|
        invariant players == old(players) + Promotions(selected[..i], old(nextPlayerId))
        invariant nextPlayerId == old(nextPlayerId) + i
        invariant recruits == old(recruits)
        invariant forall k :: 1 <= k <= i ==> fault != FailAt(k)
      {
        if fault == FailAt(i + 1) {
          return Some(StoreUnavailable);
        }
        PromotionsStep(selected, old(nextPlayerId), i);
        players := players + [Promoted(selected[i], nextPlayerId)];
        nextPlayerId := nextPlayerId + 1;
        i := i + 1;
      }
      assert selected[..i] == selected;
      if fault == FailAt(|selected| + 1) {
        return Some(StoreUnavailable);
      }
      recruits := Remaining(recruits, recruitmentYear);
      return None;
    }
  }

  /** A successful AddPlayer keeps every team within the cap when every team
      was within it before. */
  lemma AddKeepsCap(players: seq<PlayerRow>, p: NewPlayer, id: int, teamId: int)
    requires TeamSize(players, teamId) <= RosterLimit
    requires TeamSize(players, p.teamId) < RosterLimit
    ensures TeamSize(players + [Admitted(p, id)], teamId) <= RosterLimit
  {
    TeamSizeAppend(players, [Admitted(p, id)], teamId);
    assert [Admitted(p, id)][..0] == [];
  }

  /** PromoteRecruits can take a full team past the cap: a team of 85
      players with one recruit of the previous year ends with 86. */
  lemma PromotionCanExceedCap(players: seq<PlayerRow>, r: RecruitRow, id: int, year: int)
    requires TeamSize(players, r.teamId) == RosterLimit && r.recruitmentYear == year - 1
    ensures var sel := Selected([r], year - 1);
      TeamSize(players + Promotions(sel, id), r.teamId) == RosterLimit + 1
  {
    var sel := Selected([r], year - 1);
    assert sel == [r];
    var added := Promotions(sel, id);
    assert added == [Promoted(r, id)];
    TeamSizeAppend(players, added, r.teamId);
    assert added[..0] == [];
  }
}
