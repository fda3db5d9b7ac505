/** The table builder: folds a list of match rows into a ranked standings
    table, crediting both sides of every row. */
module TableBuilder {
  import opened Standings
  import opened Ranking

  /** The rows of `ms` together with the row that follows them. */
  lemma TeamsSnoc(ms: seq<Match>, m: Match)
    ensures Teams(ms + [m]) == Teams(ms) + {m.team, m.opponent}
  {
    assert forall x :: x in ms + [m] <==> x in ms || x == m;
  }

  /** Both sides of every row are teams of `ms`. */
  lemma TeamsOfMatch(ms: seq<Match>, i: int)
    requires 0 <= i < |ms|
    ensures ms[i].team in Teams(ms) && ms[i].opponent in Teams(ms)
  {
    assert ms[i] in ms;
  }

  /** One row per listed team, the goal difference filled in from the
      counters. */
  function RowsWithGoalDifference(teams: seq<Team>, table: map<Team, Tally>): (rows: seq<Row>)
    requires forall k :: 0 <= k < |teams| ==> teams[k] in table
    ensures |rows| == |teams|
    ensures forall k :: 0 <= k < |rows| ==> rows[k] == ToRow(teams[k], table[teams[k]])
  {
    if teams == [] then []
    else [ToRow(teams[0], table[teams[0]])] + RowsWithGoalDifference(teams[1..], table)
  }

  /** Every team appearing as `team` or `opponent` in `ms`, each once, in
      order of first appearance, and a table starting each of them at zero. */
  method ZeroTable(ms: seq<Match>) returns (teams: seq<Team>, table: map<Team, Tally>)
    ensures table.Keys == Teams(ms)
    ensures forall t :: t in table ==> table[t] == Zero
    ensures forall k :: 0 <= k < |teams| ==> teams[k] in table
    ensures forall t :: t in table ==> t in teams
    ensures Distinct(teams)
  {
    teams, table := [], map[];
    for i := 0 to |ms|
      invariant table.Keys == Teams(ms[..i])
      invariant forall t :: t in table ==> table[t] == Zero
      invariant forall k :: 0 <= k < |teams| ==> teams[k] in table
      invariant forall t :: t in table ==> t in teams
      invariant Distinct(teams)
    {
      assert ms[..i + 1] == ms[..i] + [ms[i]];
      TeamsSnoc(ms[..i], ms[i]);
      ghost var before := table.Keys;
      teams, table := Enlist(teams, table, ms[i].team);
      teams, table := Enlist(teams, table, ms[i].opponent);
      assert table.Keys == before + {ms[i].team, ms[i].opponent};
    }
    assert ms[..|ms|] == ms;
  }

  /** `t` appended to the team list and started at zero, unless the table
      has it already. */
  method Enlist(teams: seq<Team>, table: map<Team, Tally>, t: Team)
    returns (teams': seq<Team>, table': map<Team, Tally>)
    requires forall x :: x in table ==> table[x] == Zero
    requires forall k :: 0 <= k < |teams| ==> teams[k] in table
    requires forall x :: x in table ==> x in teams
    requires Distinct(teams)
    ensures table'.Keys == table.Keys + {t}
    ensures forall x :: x in table' ==> table'[x] == Zero
    ensures forall k :: 0 <= k < |teams'| ==> teams'[k] in table'
    ensures forall x :: x in table' ==> x in teams'
    ensures Distinct(teams')
  {
    teams', table' := teams, table;
    if t !in table {
      teams' := teams + [t];
      table' := table[t := Zero];
    }
  }

  /** Appearances and goals of one match row: `played` for both sides,
      goals for and against for its team and, swapped, for its opponent. */
  method CreditAppearances(table: map<Team, Tally>, m: Match) returns (updated: map<Team, Tally>)
    requires m.team in table && m.opponent in table
    ensures updated.Keys == table.Keys
    ensures forall t :: t in table ==> updated[t] == Plus(table[t], AppearanceCredit(m, t))
  {
    var home, away := m.team, m.opponent;
    updated := table;
    updated := updated[home := updated[home].(played := updated[home].played + 1)];
    updated := updated[away := updated[away].(played := updated[away].played + 1)];
    updated := updated[home := updated[home].(gf := updated[home].gf + m.gf)];
    updated := updated[home := updated[home].(ga := updated[home].ga + m.ga)];
    updated := updated[away := updated[away].(gf := updated[away].gf + m.ga)];
    updated := updated[away := updated[away].(ga := updated[away].ga + m.gf)];
  }

  /** Points and the win, draw and loss counters of one match row; a result
      code other than W, L or D changes nothing. */
  method CreditResult(table: map<Team, Tally>, m: Match) returns (updated: map<Team, Tally>)
    requires m.team in table && m.opponent in table
    ensures updated.Keys == table.Keys
    ensures forall t :: t in table ==> updated[t] == Plus(table[t], ResultCredit(m, t))
  {
    var home, away := m.team, m.opponent;
    updated := table;
    match m.result {
      case Win =>
        updated := updated[home := updated[home].(points := updated[home].points + 3)];
        updated := updated[home := updated[home].(w := updated[home].w + 1)];
        updated := updated[away := updated[away].(l := updated[away].l + 1)];
      case Loss =>
        updated := updated[away := updated[away].(points := updated[away].points + 3)];
        updated := updated[away := updated[away].(w := updated[away].w + 1)];
        updated := updated[home := updated[home].(l := updated[home].l + 1)];
      case Draw =>
        updated := updated[home := updated[home].(points := updated[home].points + 1)];
        updated := updated[away := updated[away].(points := updated[away].points + 1)];
        updated := updated[home := updated[home].(d := updated[home].d + 1)];
        updated := updated[away := updated[away].(d := updated[away].d + 1)];
      case Unrecognised =>
    }
  }

  /** One match row applied to the table: its team and its opponent get
      exactly their credit, every other team is unchanged. */
  method CreditMatch(table: map<Team, Tally>, m: Match) returns (updated: map<Team, Tally>)
    requires m.team in table && m.opponent in table
    ensures updated.Keys == table.Keys
    ensures forall t :: t in table ==> updated[t] == Plus(table[t], Credit(m, t))
  {
    var appeared := CreditAppearances(table, m);
    updated := CreditResult(appeared, m);
    forall t | t in table ensures updated[t] == Plus(table[t], Credit(m, t)) {
      PlusAssociative(table[t], AppearanceCredit(m, t), ResultCredit(m, t));
    }
  }

  /** The standings after the rows `ms`: every team named in `ms` starts at
      zero, each row credits its team and (with the goals swapped) its
      opponent, then the goal difference is filled in, the rows are ranked
      by (points, gd, gf) and numbered from 1. */
  method CalculateTableForRound(ms: seq<Match>) returns (standings: seq<Standing>)
    ensures IsStandings(ms, standings)
  {
    var teams, zero := ZeroTable(ms);
    var table := CreditAll(ms, zero);
    standings := RankTable(ms, teams, table);
  }

  /** The accumulator after crediting every row of `ms`, in order, to a
      table that starts every team of `ms` at zero. */
  method CreditAll(ms: seq<Match>, zero: map<Team, Tally>) returns (table: map<Team, Tally>)
    requires zero.Keys == Teams(ms)
    requires forall t :: t in zero ==> zero[t] == Zero
    ensures table.Keys == Teams(ms)
    ensures forall t :: t in table ==> table[t] == TallyOf(ms, t)
  {
    table := zero;
    for i := 0 to |ms|
      invariant table.Keys == Teams(ms)
      invariant forall t :: t in table ==> table[t] == TallyOf(ms[..i], t)
    {
      TeamsOfMatch(ms, i);
      table := CreditMatch(table, ms[i]);
      forall t | t in table ensures table[t] == TallyOf(ms[..i + 1], t) {
        TallyOfPrefix(ms, i, t);
      }
    }
    assert ms[..|ms|] == ms;
  }

  /** The finished accumulator turned into the table: the goal difference
      filled in, the rows ranked by (points, gd, gf) and numbered from 1. */
  method RankTable(ghost ms: seq<Match>, teams: seq<Team>, table: map<Team, Tally>)
    returns (standings: seq<Standing>)
    requires table.Keys == Teams(ms)
    requires forall t :: t in table ==> table[t] == TallyOf(ms, t)
    requires forall k :: 0 <= k < |teams| ==> teams[k] in table
    requires forall t :: t in table ==> t in teams
    requires Distinct(teams)
    ensures IsStandings(ms, standings)
  {
    var rows := RowsWithGoalDifference(teams, table);
    AccumulatedRows(ms, teams, table);
    var ranked := SortByRank(rows);
    standings := Numbered(ranked);
    NumberedRankedRows(ms, rows, standings);
  }

  /** Ranking and numbering a list of accumulated rows, one per team of
      `ms`, gives a standings table of `ms`. */
  lemma NumberedRankedRows(ms: seq<Match>, rows: seq<Row>, standings: seq<Standing>)
    requires forall x :: x in rows ==> x == RowOf(ms, x.team)
    requires TeamsOfRows(rows) == Teams(ms)
    requires DistinctTeams(rows)
    requires standings == Numbered(SortByRank(rows))
    ensures IsStandings(ms, standings)
  {
    var ranked := SortByRank(rows);
    SortByRankCorrect(rows);
    PermutationKeepsTeamsDistinct(rows, ranked);
    assert RowsOf(standings) == ranked;
    forall i | 0 <= i < |standings| ensures standings[i].row == RowOf(ms, standings[i].row.team) {
      assert ranked[i] in multiset(rows);
    }
  }

  /** The rows materialised from the finished accumulator are exactly the
      accumulated rows of the teams of `ms`, one per team. */
  lemma AccumulatedRows(ms: seq<Match>, teams: seq<Team>, table: map<Team, Tally>)
    requires table.Keys == Teams(ms)
    requires forall t :: t in table ==> table[t] == TallyOf(ms, t)
    requires forall k :: 0 <= k < |teams| ==> teams[k] in table
    requires forall t :: t in table ==> t in teams
    requires Distinct(teams)
    ensures forall x :: x in RowsWithGoalDifference(teams, table) ==> x == RowOf(ms, x.team)
    ensures TeamsOfRows(RowsWithGoalDifference(teams, table)) == Teams(ms)
    ensures DistinctTeams(RowsWithGoalDifference(teams, table))
  {
    RowsAreAccumulated(ms, teams, table);
    RowsCoverTeams(ms, teams, table);
    RowsHaveDistinctTeams(teams, table);
  }

  lemma RowsAreAccumulated(ms: seq<Match>, teams: seq<Team>, table: map<Team, Tally>)
    requires forall t :: t in table ==> table[t] == TallyOf(ms, t)
    requires forall k :: 0 <= k < |teams| ==> teams[k] in table
    ensures forall x :: x in RowsWithGoalDifference(teams, table) ==> x == RowOf(ms, x.team)
  {
    var rows := RowsWithGoalDifference(teams, table);
    forall x | x in rows ensures x == RowOf(ms, x.team) {
      var k :| 0 <= k < |rows| && rows[k] == x;
      assert table[teams[k]] == TallyOf(ms, teams[k]);
    }
  }

  lemma RowsCoverTeams(ms: seq<Match>, teams: seq<Team>, table: map<Team, Tally>)
    requires table.Keys == Teams(ms)
    requires forall k :: 0 <= k < |teams| ==> teams[k] in table
    requires forall t :: t in table ==> t in teams
    ensures TeamsOfRows(RowsWithGoalDifference(teams, table)) == Teams(ms)
  {
    var rows := RowsWithGoalDifference(teams, table);
    forall t | t in Teams(ms) ensures t in TeamsOfRows(rows) {
      var k :| 0 <= k < |teams| && teams[k] == t;
      assert rows[k].team == t;
    }
    forall t | t in TeamsOfRows(rows) ensures t in Teams(ms) {
      var x :| x in rows && x.team == t;
      var k :| 0 <= k < |rows| && rows[k] == x;
    }
  }

  lemma RowsHaveDistinctTeams(teams: seq<Team>, table: map<Team, Tally>)
    requires forall k :: 0 <= k < |teams| ==> teams[k] in table
    requires Distinct(teams)
    ensures DistinctTeams(RowsWithGoalDifference(teams, table))
  {
  }
}
