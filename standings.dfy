/** The vocabulary of a league table: match rows, the counters kept per team,
    standings rows, and what it means for a ranked table to be the standings
    of a given list of match rows. */
module Standings {

  type Team = string
  type Season = string

  /** The `result` column of a match row, read from `team`'s side.
      "W", "L" and "D" are recognised; every other code is `Unrecognised`,
      and the builder then credits appearances and goals but no points. */
  datatype Outcome = Win | Loss | Draw | Unrecognised

  /** One match row. `gf` are the goals of `team`, `ga` those of `opponent`. */
  datatype Match = Match(season: Season, round: int, team: Team, opponent: Team,
                         result: Outcome, gf: int, ga: int)

  /** The counters the builder increments for one team. */
  datatype Tally = Tally(played: int, w: int, d: int, l: int, points: int, gf: int, ga: int)

  /** A row of a standings table before it is given a position. */
  datatype Row = Row(team: Team, played: int, w: int, d: int, l: int, points: int,
                     gf: int, ga: int, gd: int)

  /** A row together with its 1-based position in the table. */
  datatype Standing = Standing(pos: int, row: Row)

  const Zero := Tally(0, 0, 0, 0, 0, 0, 0)

  function Plus(a: Tally, b: Tally): Tally
  {
    Tally(a.played + b.played, a.w + b.w, a.d + b.d, a.l + b.l,
          a.points + b.points, a.gf + b.gf, a.ga + b.ga)
  }

  lemma PlusAssociative(a: Tally, b: Tally, c: Tally)
    ensures Plus(Plus(a, b), c) == Plus(a, Plus(b, c))
  {
  }

  /** 1 when `c` holds, else 0. */
  function Count(c: bool): int
  {
    if c then 1 else 0
  }

  /** The appearance and the goals one match row credits to team `t`: its
      `team` gets `gf` for and `ga` against, its `opponent` the same goals
      swapped. A row whose team and opponent are the same club credits that
      club on both sides. */
  function AppearanceCredit(m: Match, t: Team): Tally
  {
    var home, away := t == m.team, t == m.opponent;
    Tally(Count(home) + Count(away), 0, 0, 0, 0,
          (if home then m.gf else 0) + (if away then m.ga else 0),
          (if home then m.ga else 0) + (if away then m.gf else 0))
  }

  /** The points and the win, draw or loss one match row credits to team
      `t`: "W" is a win for `team` and a loss for `opponent`, "L" the other
      way round, "D" a draw for both; any other code credits nothing. */
  function ResultCredit(m: Match, t: Team): Tally
  {
    var home, away := t == m.team, t == m.opponent;
    var wins := Count(home && m.result == Win) + Count(away && m.result == Loss);
    var draws := Count(home && m.result == Draw) + Count(away && m.result == Draw);
    var losses := Count(home && m.result == Loss) + Count(away && m.result == Win);
    Tally(0, wins, draws, losses, 3 * wins + draws, 0, 0)
  }

  /** Everything one match row adds to team `t`. */
  function Credit(m: Match, t: Team): Tally
  {
    Plus(AppearanceCredit(m, t), ResultCredit(m, t))
  }

  /** The counters of team `t` after folding the rows of `ms` in order. */
  function TallyOf(ms: seq<Match>, t: Team): Tally
  {
    if ms == [] then Zero
    else Plus(TallyOf(ms[..|ms| - 1], t), Credit(ms[|ms| - 1], t))
  }

  /** The counters turned into a row, with the goal difference filled in. */
  function ToRow(t: Team, c: Tally): Row
  {
    Row(t, c.played, c.w, c.d, c.l, c.points, c.gf, c.ga, c.gf - c.ga)
  }

  /** The counters after one more row: the fold unfolded once. */
  lemma TallyOfPrefix(ms: seq<Match>, i: int, t: Team)
    requires 0 <= i < |ms|
    ensures TallyOf(ms[..i + 1], t) == Plus(TallyOf(ms[..i], t), Credit(ms[i], t))
  {
    assert ms[..i + 1][..i] == ms[..i];
  }

  /** The row the builder accumulates for team `t` from `ms`. */
  function RowOf(ms: seq<Match>, t: Team): Row
  {
    ToRow(t, TallyOf(ms, t))
  }

  /** Every team named as `team` or `opponent` somewhere in `ms`. */
  function Teams(ms: seq<Match>): set<Team>
  {
    (set m | m in ms :: m.team) + (set m | m in ms :: m.opponent)
  }

  /** `a` is placed no lower than `b`: (points, gd, gf) compared
      lexicographically, larger first. */
  predicate RanksAtLeast(a: Row, b: Row)
  {
    a.points > b.points ||
    (a.points == b.points && (a.gd > b.gd || (a.gd == b.gd && a.gf >= b.gf)))
  }

  ghost predicate Ranked(rows: seq<Row>)
  {
    forall i, j :: 0 <= i < j < |rows| ==> RanksAtLeast(rows[i], rows[j])
  }

  ghost predicate DistinctTeams(rows: seq<Row>)
  {
    forall i, j :: 0 <= i < j < |rows| ==> rows[i].team != rows[j].team
  }

  /** No team is listed twice. */
  ghost predicate Distinct(teams: seq<Team>)
  {
    forall j, k :: 0 <= j < k < |teams| ==> teams[j] != teams[k]
  }

  function TeamsOfRows(rows: seq<Row>): set<Team>
  {
    set r | r in rows :: r.team
  }

  /** The ranked rows given positions 1, 2, ... in order. */
  function Numbered(ranked: seq<Row>): (table: seq<Standing>)
    ensures |table| == |ranked|
    ensures forall i :: 0 <= i < |table| ==> table[i].pos == i + 1 && table[i].row == ranked[i]
  {
    seq(|ranked|, i requires 0 <= i < |ranked| => Standing(i + 1, ranked[i]))
  }

  function RowsOf(table: seq<Standing>): seq<Row>
  {
    seq(|table|, i requires 0 <= i < |table| => table[i].row)
  }

  /** `table` is a standings table of `ms`: positions 1..N in order, ranked
      by (points, gd, gf), exactly one row per team of `ms`, and each row
      holding that team's accumulated counters. */
  ghost predicate IsStandings(ms: seq<Match>, table: seq<Standing>)
  {
    && (forall i :: 0 <= i < |table| ==> table[i].pos == i + 1)
    && Ranked(RowsOf(table))
    && DistinctTeams(RowsOf(table))
    && TeamsOfRows(RowsOf(table)) == Teams(ms)
    && (forall i :: 0 <= i < |table| ==> table[i].row == RowOf(ms, table[i].row.team))
  }
}
