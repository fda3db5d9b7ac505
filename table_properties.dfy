/** What a standings table built from a list of match rows guarantees: the
    per-row identities (points, goal difference, games played), the column
    totals over the whole table, the size of the table and its positions. */
module TableProperties {
  import opened Standings

  // ---------------------------------------------------------------------
  // Per team

  /** Points only ever come as 3 with a win or 1 with a draw. */
  lemma {:induction false} PointsFromResults(ms: seq<Match>, t: Team)
    ensures TallyOf(ms, t).points == 3 * TallyOf(ms, t).w + TallyOf(ms, t).d
  {
    if ms != [] {
      PointsFromResults(ms[..|ms| - 1], t);
    }
  }

  /** How often `t` appears, as team or as opponent, in rows whose result
      code is not recognised. */
  function UnrecognisedAppearances(ms: seq<Match>, t: Team): int
  {
    if ms == [] then 0
    else
      var m := ms[|ms| - 1];
      UnrecognisedAppearances(ms[..|ms| - 1], t) +
      (if m.result == Unrecognised then Count(t == m.team) + Count(t == m.opponent) else 0)
  }

  /** Every game played is a win, a draw, a loss, or a row with an
      unrecognised result code. */
  lemma {:induction false} PlayedSplits(ms: seq<Match>, t: Team)
    ensures TallyOf(ms, t).played
         == TallyOf(ms, t).w + TallyOf(ms, t).d + TallyOf(ms, t).l + UnrecognisedAppearances(ms, t)
  {
    if ms != [] {
      PlayedSplits(ms[..|ms| - 1], t);
    }
  }

  /** When every row carries W, L or D, played = w + d + l. */
  lemma {:induction false} PlayedWhenRecognised(ms: seq<Match>, t: Team)
    requires forall i :: 0 <= i < |ms| ==> ms[i].result != Unrecognised
    ensures TallyOf(ms, t).played == TallyOf(ms, t).w + TallyOf(ms, t).d + TallyOf(ms, t).l
  {
    if ms != [] {
      PlayedWhenRecognised(ms[..|ms| - 1], t);
    }
  }

  /** A row with an unrecognised result code adds the appearance and the
      goals and leaves points, wins, draws and losses as they were. */
  lemma UnrecognisedIsNoOp(ms: seq<Match>, m: Match, t: Team)
    requires m.result == Unrecognised
    ensures TallyOf(ms + [m], t) == Plus(TallyOf(ms, t), AppearanceCredit(m, t))
    ensures TallyOf(ms + [m], t).points == TallyOf(ms, t).points
    ensures TallyOf(ms + [m], t).w == TallyOf(ms, t).w
    ensures TallyOf(ms + [m], t).d == TallyOf(ms, t).d
    ensures TallyOf(ms + [m], t).l == TallyOf(ms, t).l
  {
    TallyOfSnoc(ms, m, t);
    UnrecognisedCredit(m, t);
  }

  lemma UnrecognisedCredit(m: Match, t: Team)
    requires m.result == Unrecognised
    ensures Credit(m, t) == AppearanceCredit(m, t)
  {
  }

  /** The fold after one more row. */
  lemma TallyOfSnoc(ms: seq<Match>, m: Match, t: Team)
    ensures TallyOf(ms + [m], t) == Plus(TallyOf(ms, t), Credit(m, t))
  {
    assert (ms + [m])[..|ms|] == ms;
  }

  // ---------------------------------------------------------------------
  // Per match, over all teams

  /** What one row gives its `team` when the opponent is another club. */
  function HomeShare(m: Match): Tally
  {
    var w, d, l := Count(m.result == Win), Count(m.result == Draw), Count(m.result == Loss);
    Tally(1, w, d, l, 3 * w + d, m.gf, m.ga)
  }

  /** What one row gives its `opponent` when that is another club. */
  function AwayShare(m: Match): Tally
  {
    var w, d, l := Count(m.result == Loss), Count(m.result == Draw), Count(m.result == Win);
    Tally(1, w, d, l, 3 * w + d, m.ga, m.gf)
  }

  /** A row credits its team with the home share and its opponent with the
      away share (a club on both sides gets both). */
  lemma CreditSplits(m: Match, t: Team)
    ensures Credit(m, t) == Plus(if t == m.team then HomeShare(m) else Zero,
                                 if t == m.opponent then AwayShare(m) else Zero)
  {
    if t == m.team && t == m.opponent {
      CreditToBothSides(m, t);
    } else if t == m.team {
      CreditToTeamOnly(m, t);
    } else if t == m.opponent {
      CreditToOpponentOnly(m, t);
    } else {
      CreditToNeither(m, t);
    }
  }

  /** What one row adds to the whole table: two games played, the goals
      once for and once against, one win and one loss or two draws. */
  function MatchTotal(m: Match): Tally
  {
    var decided, drawn := Count(m.result == Win || m.result == Loss), Count(m.result == Draw);
    Tally(2, decided, 2 * drawn, decided, 3 * decided + 2 * drawn, m.gf + m.ga, m.gf + m.ga)
  }

  lemma SharesAddUp(m: Match)
    ensures Plus(HomeShare(m), AwayShare(m)) == MatchTotal(m)
  {
  }

  /** The table-wide sums of the rows `ms`. */
  function Totals(ms: seq<Match>): Tally
  {
    if ms == [] then Zero else Plus(Totals(ms[..|ms| - 1]), MatchTotal(ms[|ms| - 1]))
  }

  /** Rows whose result is W or L. */
  function DecidedRows(ms: seq<Match>): int
  {
    if ms == [] then 0
    else
      var m := ms[|ms| - 1];
      DecidedRows(ms[..|ms| - 1]) + Count(m.result == Win || m.result == Loss)
  }

  /** Rows whose result is D. */
  function DrawnRows(ms: seq<Match>): int
  {
    if ms == [] then 0 else DrawnRows(ms[..|ms| - 1]) + Count(ms[|ms| - 1].result == Draw)
  }

  /** The sums balance: games are twice the rows, goals for equal goals
      against, wins equal losses, and the points are 3 per decided row and
      2 per drawn row. */
  lemma {:induction false} TotalsBalance(ms: seq<Match>)
    ensures Totals(ms).played == 2 * |ms|
    ensures Totals(ms).gf == Totals(ms).ga
    ensures Totals(ms).w == Totals(ms).l == DecidedRows(ms)
    ensures Totals(ms).d == 2 * DrawnRows(ms)
    ensures Totals(ms).points == 3 * DecidedRows(ms) + 2 * DrawnRows(ms)
  {
    if ms != [] {
      TotalsBalance(ms[..|ms| - 1]);
    }
  }

  // ---------------------------------------------------------------------
  // Column sums

  /** A counter column of the table. */
  datatype Column = Played | Wins | Draws | Losses | Points | GoalsFor | GoalsAgainst

  function Get(c: Tally, k: Column): int
  {
    match k
    case Played => c.played
    case Wins => c.w
    case Draws => c.d
    case Losses => c.l
    case Points => c.points
    case GoalsFor => c.gf
    case GoalsAgainst => c.ga
  }

  lemma GetPlus(a: Tally, b: Tally, k: Column)
    ensures Get(Plus(a, b), k) == Get(a, k) + Get(b, k)
  {
  }

  /** The tail of a list of distinct teams is distinct and lacks its head. */
  lemma DistinctTail(teams: seq<Team>)
    requires Distinct(teams) && teams != []
    ensures Distinct(teams[1..]) && teams[0] !in teams[1..]
    ensures forall t :: t in teams <==> t == teams[0] || t in teams[1..]
  {
    var rest := teams[1..];
    forall j, k | 0 <= j < k < |rest| ensures rest[j] != rest[k] {
      assert rest[j] == teams[j + 1] && rest[k] == teams[k + 1];
    }
    forall k | 0 <= k < |rest| ensures rest[k] != teams[0] {
      assert rest[k] == teams[k + 1];
    }
    assert teams == [teams[0]] + rest;
  }

  /** `f` of every listed team, added up. */
  function SumOver(teams: seq<Team>, f: Team -> int): int
  {
    if teams == [] then 0 else f(teams[0]) + SumOver(teams[1..], f)
  }

  lemma {:induction false} SumOverZero(teams: seq<Team>, f: Team -> int)
    requires forall t :: f(t) == 0
    ensures SumOver(teams, f) == 0
  {
    if teams != [] {
      SumOverZero(teams[1..], f);
    }
  }

  /** Adding up is linear: the sum of pointwise sums is the sum of sums. */
  lemma {:induction false} SumOverPlus(teams: seq<Team>, f: Team -> int, g: Team -> int,
                                       h: Team -> int)
    requires forall t :: h(t) == f(t) + g(t)
    ensures SumOver(teams, h) == SumOver(teams, f) + SumOver(teams, g)
  {
    if teams != [] {
      SumOverPlus(teams[1..], f, g, h);
    }
  }

  /** Column `k` of the listed teams' counters, added up. */
  function ColumnSum(teams: seq<Team>, ms: seq<Match>, k: Column): int
  {
    SumOver(teams, t => Get(TallyOf(ms, t), k))
  }

  /** Column `k` of what one row credits to the listed teams, added up. */
  function CreditSum(teams: seq<Team>, m: Match, k: Column): int
  {
    SumOver(teams, t => Get(Credit(m, t), k))
  }

  /** One more match row adds its credits to every column sum. */
  lemma ColumnSumSnoc(teams: seq<Team>, ms: seq<Match>, m: Match, k: Column)
    ensures ColumnSum(teams, ms + [m], k) == ColumnSum(teams, ms, k) + CreditSum(teams, m, k)
  {
    var before, credit, after :=
      t => Get(TallyOf(ms, t), k), t => Get(Credit(m, t), k), t => Get(TallyOf(ms + [m], t), k);
    forall t ensures after(t) == before(t) + credit(t) {
      TallyOfSnoc(ms, m, t);
      GetPlus(TallyOf(ms, t), Credit(m, t), k);
    }
    SumOverPlus(teams, before, credit, after);
  }

  /** Over distinct teams listing both sides of a row, the row's credits add
      up to its table-wide contribution. */
  lemma CreditSumIsMatchTotal(teams: seq<Team>, m: Match, k: Column)
    requires Distinct(teams)
    requires m.team in teams && m.opponent in teams
    ensures CreditSum(teams, m, k) == Get(MatchTotal(m), k)
  {
    CreditSumTwoSides(teams, m, k);
    MatchTotalColumn(m, k);
  }

  /** Over distinct teams, a row's credits add up to its home share if its
      team is listed plus its away share if its opponent is listed. */
  lemma {:induction false} CreditSumTwoSides(teams: seq<Team>, m: Match, k: Column)
    requires Distinct(teams)
    ensures CreditSum(teams, m, k)
         == (if m.team in teams then Get(HomeShare(m), k) else 0)
          + (if m.opponent in teams then Get(AwayShare(m), k) else 0)
  {
    if teams != [] {
      DistinctTail(teams);
      CreditColumn(m, teams[0], k);
      CreditSumTwoSides(teams[1..], m, k);
    }
  }

  lemma MatchTotalColumn(m: Match, k: Column)
    ensures Get(MatchTotal(m), k) == Get(HomeShare(m), k) + Get(AwayShare(m), k)
  {
    SharesAddUp(m);
    GetPlus(HomeShare(m), AwayShare(m), k);
  }

  /** Column `k` of a row's credit to `t`: the home share's if `t` is its
      team, plus the away share's if `t` is its opponent. */
  lemma CreditColumn(m: Match, t: Team, k: Column)
    ensures Get(Credit(m, t), k)
         == (if t == m.team then Get(HomeShare(m), k) else 0)
          + (if t == m.opponent then Get(AwayShare(m), k) else 0)
  {
    if t == m.team && t == m.opponent {
      CreditToBothSides(m, t);
      GetPlus(HomeShare(m), AwayShare(m), k);
    } else if t == m.team {
      CreditToTeamOnly(m, t);
    } else if t == m.opponent {
      CreditToOpponentOnly(m, t);
    } else {
      CreditToNeither(m, t);
    }
  }

  lemma CreditToBothSides(m: Match, t: Team)
    requires t == m.team && t == m.opponent
    ensures Credit(m, t) == Plus(HomeShare(m), AwayShare(m))
  {
  }

  lemma CreditToTeamOnly(m: Match, t: Team)
    requires t == m.team && t != m.opponent
    ensures Credit(m, t) == HomeShare(m)
  {
  }

  lemma CreditToOpponentOnly(m: Match, t: Team)
    requires t != m.team && t == m.opponent
    ensures Credit(m, t) == AwayShare(m)
  {
  }

  lemma CreditToNeither(m: Match, t: Team)
    requires t != m.team && t != m.opponent
    ensures Credit(m, t) == Zero
  {
  }

  /** Over distinct teams covering every team of `ms`, each column of the
      counters adds up to that column of the table-wide sums of `ms`. */
  lemma {:induction false} ColumnSumIsTotal(teams: seq<Team>, ms: seq<Match>, k: Column)
    requires Distinct(teams)
    requires forall t :: t in Teams(ms) ==> t in teams
    ensures ColumnSum(teams, ms, k) == Get(Totals(ms), k)
  {
    if ms == [] {
      SumOverZero(teams, t => Get(TallyOf(ms, t), k));
    } else {
      var init, m := ms[..|ms| - 1], ms[|ms| - 1];
      assert ms == init + [m];
      TeamsOfLast(ms);
      ColumnSumIsTotal(teams, init, k);
      ColumnSumSnoc(teams, init, m, k);
      CreditSumIsMatchTotal(teams, m, k);
      TotalsColumnSnoc(ms, k);
    }
  }

  /** The teams of all rows but the last, and both sides of the last, are
      teams of `ms`. */
  lemma TeamsOfLast(ms: seq<Match>)
    requires ms != []
    ensures Teams(ms[..|ms| - 1]) <= Teams(ms)
    ensures ms[|ms| - 1].team in Teams(ms) && ms[|ms| - 1].opponent in Teams(ms)
  {
    var init := ms[..|ms| - 1];
    forall x | x in init ensures x in ms {
      var i :| 0 <= i < |init| && init[i] == x;
      assert ms[i] == x;
    }
    assert ms[|ms| - 1] in ms;
  }

  lemma TotalsColumnSnoc(ms: seq<Match>, k: Column)
    requires ms != []
    ensures Get(Totals(ms), k) == Get(Totals(ms[..|ms| - 1]), k) + Get(MatchTotal(ms[|ms| - 1]), k)
  {
    GetPlus(Totals(ms[..|ms| - 1]), MatchTotal(ms[|ms| - 1]), k);
  }

  // ---------------------------------------------------------------------
  // Over a standings table

  function Cell(r: Row, k: Column): int
  {
    Get(Tally(r.played, r.w, r.d, r.l, r.points, r.gf, r.ga), k)
  }

  /** Column `k` of the table added up. */
  function ColumnTotal(table: seq<Standing>, k: Column): int
  {
    if table == [] then 0 else Cell(table[0].row, k) + ColumnTotal(table[1..], k)
  }

  /** The `gd` column added up. */
  function GoalDifferenceTotal(table: seq<Standing>): int
  {
    if table == [] then 0 else table[0].row.gd + GoalDifferenceTotal(table[1..])
  }

  function TeamsInOrder(table: seq<Standing>): seq<Team>
  {
    seq(|table|, i requires 0 <= i < |table| => table[i].row.team)
  }

  /** The `gd` column of rows with gd = gf - ga sums to gf minus ga. */
  lemma {:induction false} GoalDifferenceTotalSplits(table: seq<Standing>)
    requires forall i :: 0 <= i < |table| ==> table[i].row.gd == table[i].row.gf - table[i].row.ga
    ensures GoalDifferenceTotal(table) == ColumnTotal(table, GoalsFor) - ColumnTotal(table, GoalsAgainst)
  {
    if table != [] {
      GoalDifferenceTotalSplits(table[1..]);
    }
  }

  /** A table whose rows hold the accumulated counters has as column sums
      the sums of its teams' counters. */
  lemma {:induction false} ColumnTotalIsSum(ms: seq<Match>, table: seq<Standing>, k: Column)
    requires forall i :: 0 <= i < |table| ==> table[i].row == RowOf(ms, table[i].row.team)
    ensures ColumnTotal(table, k) == ColumnSum(TeamsInOrder(table), ms, k)
  {
    if table != [] {
      var teams, rest := TeamsInOrder(table), table[1..];
      assert teams[1..] == TeamsInOrder(rest);
      ColumnTotalIsSum(ms, rest, k);
      var first := table[0].row;
      assert first == RowOf(ms, first.team);
      assert Cell(first, k) == Get(TallyOf(ms, teams[0]), k);
    }
  }

  /** Across a standings table the columns balance: games played are twice
      the number of match rows, goals for equal goals against so the goal
      differences sum to zero, wins equal losses, and the points are 3 per
      decided row and 2 per drawn row. */
  lemma StandingsTotals(ms: seq<Match>, table: seq<Standing>)
    requires IsStandings(ms, table)
    ensures ColumnTotal(table, Played) == 2 * |ms|
    ensures ColumnTotal(table, GoalsFor) == ColumnTotal(table, GoalsAgainst)
    ensures GoalDifferenceTotal(table) == 0
    ensures ColumnTotal(table, Wins) == ColumnTotal(table, Losses) == DecidedRows(ms)
    ensures ColumnTotal(table, Draws) == 2 * DrawnRows(ms)
    ensures ColumnTotal(table, Points) == 3 * DecidedRows(ms) + 2 * DrawnRows(ms)
  {
    StandingsTeamsInOrder(ms, table);
    ColumnsAreTotals(ms, table);
    GoalDifferenceTotalSplits(table);
    ColumnsBalance(ms, table);
  }

  /** One row per team of `ms`, each holding that team's accumulated
      counters: every column sums to that column of the table-wide sums. */
  lemma ColumnsAreTotals(ms: seq<Match>, table: seq<Standing>)
    requires forall i :: 0 <= i < |table| ==> table[i].row == RowOf(ms, table[i].row.team)
    requires Distinct(TeamsInOrder(table))
    requires forall t :: t in Teams(ms) ==> t in TeamsInOrder(table)
    ensures forall k: Column :: ColumnTotal(table, k) == Get(Totals(ms), k)
  {
    forall k: Column ensures ColumnTotal(table, k) == Get(Totals(ms), k) {
      ColumnTotalIsSum(ms, table, k);
      ColumnSumIsTotal(TeamsInOrder(table), ms, k);
    }
  }

  /** Column sums equal to the table-wide sums of `ms` balance. */
  lemma ColumnsBalance(ms: seq<Match>, table: seq<Standing>)
    requires forall k: Column :: ColumnTotal(table, k) == Get(Totals(ms), k)
    requires GoalDifferenceTotal(table) == ColumnTotal(table, GoalsFor) - ColumnTotal(table, GoalsAgainst)
    ensures ColumnTotal(table, Played) == 2 * |ms|
    ensures ColumnTotal(table, GoalsFor) == ColumnTotal(table, GoalsAgainst)
    ensures GoalDifferenceTotal(table) == 0
    ensures ColumnTotal(table, Wins) == ColumnTotal(table, Losses) == DecidedRows(ms)
    ensures ColumnTotal(table, Draws) == 2 * DrawnRows(ms)
    ensures ColumnTotal(table, Points) == 3 * DecidedRows(ms) + 2 * DrawnRows(ms)
  {
    TotalsBalance(ms);
  }

  /** The teams of a standings table, in table order, are distinct and
      cover every team of `ms`; every row's gd is gf - ga. */
  lemma StandingsTeamsInOrder(ms: seq<Match>, table: seq<Standing>)
    requires IsStandings(ms, table)
    ensures Distinct(TeamsInOrder(table))
    ensures forall t :: t in Teams(ms) ==> t in TeamsInOrder(table)
    ensures forall i :: 0 <= i < |table| ==> table[i].row.gd == table[i].row.gf - table[i].row.ga
  {
    var teams, rows := TeamsInOrder(table), RowsOf(table);
    forall t | t in Teams(ms) ensures t in teams {
      var r :| r in rows && r.team == t;
      var i :| 0 <= i < |rows| && rows[i] == r;
      assert teams[i] == t;
    }
    forall j, k | 0 <= j < k < |teams| ensures teams[j] != teams[k] {
      assert rows[j].team != rows[k].team;
    }
  }

  /** Every row of a standings table has points = 3w + d, gd = gf - ga and
      played = w + d + l plus its rows with an unrecognised result code. */
  lemma StandingsRowsConsistent(ms: seq<Match>, table: seq<Standing>)
    requires IsStandings(ms, table)
    ensures forall i :: 0 <= i < |table| ==>
      && table[i].row.points == 3 * table[i].row.w + table[i].row.d
      && table[i].row.gd == table[i].row.gf - table[i].row.ga
      && table[i].row.played == table[i].row.w + table[i].row.d + table[i].row.l
                                + UnrecognisedAppearances(ms, table[i].row.team)
  {
    forall i | 0 <= i < |table|
      ensures table[i].row.points == 3 * table[i].row.w + table[i].row.d
      ensures table[i].row.played == table[i].row.w + table[i].row.d + table[i].row.l
                                     + UnrecognisedAppearances(ms, table[i].row.team)
    {
      PointsFromResults(ms, table[i].row.team);
      PlayedSplits(ms, table[i].row.team);
    }
  }

  function Positions(table: seq<Standing>): seq<int>
  {
    seq(|table|, i requires 0 <= i < |table| => table[i].pos)
  }

  /** Rows with distinct teams name as many teams as there are rows. */
  lemma {:induction false} DistinctTeamsCount(rows: seq<Row>)
    requires DistinctTeams(rows)
    ensures |TeamsOfRows(rows)| == |rows|
  {
    if rows != [] {
      var rest := rows[1..];
      assert DistinctTeams(rest) by {
        forall j, k | 0 <= j < k < |rest| ensures rest[j].team != rest[k].team {
          assert rest[j] == rows[j + 1] && rest[k] == rows[k + 1];
        }
      }
      assert rows[0].team !in TeamsOfRows(rest) by {
        forall r | r in rest ensures r.team != rows[0].team {
          var k :| 0 <= k < |rest| && rest[k] == r;
          assert rest[k] == rows[k + 1];
        }
      }
      assert rows == [rows[0]] + rest;
      assert TeamsOfRows(rows) == {rows[0].team} + TeamsOfRows(rest);
      DistinctTeamsCount(rest);
    }
  }

  /** A standings table has one row per team and its positions are exactly
      1..N. */
  lemma StandingsSize(ms: seq<Match>, table: seq<Standing>)
    requires IsStandings(ms, table)
    ensures |table| == |Teams(ms)|
    ensures Positions(table) == seq(|table|, i => i + 1)
  {
    DistinctTeamsCount(RowsOf(table));
    var expected := seq(|table|, i => i + 1);
    assert |Positions(table)| == |expected|;
    forall i | 0 <= i < |table| ensures Positions(table)[i] == expected[i] {
    }
  }

  /** No match rows, no table. */
  lemma EmptyInputEmptyTable(table: seq<Standing>)
    requires IsStandings([], table)
    ensures table == []
  {
    StandingsSize([], table);
  }
}
