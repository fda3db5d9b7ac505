# League standings per season and round

This project models the standings computation in `helpers/season_table.py`.
It has two parts, and Dafny proves properties of both.

- **Table builder.** It takes a list of match rows. Each row names a `team`, an `opponent`, a result code from the team's side, and the goals `gf`/`ga`. The builder starts every team named on either side at zero. It then folds the rows into a per-team accumulator: one row credits the team with `gf`/`ga` and the opponent with the same goals swapped, and W, L or D award points and wins, draws and losses. Finally it fills in the goal difference, ranks the rows by points, then goal difference, then goals scored (highest first), and numbers them from 1.
- **Season sweep.** For every season it drops round 0 (the play-offs) by keeping only rows with round > 0. For every remaining round, smallest first, it builds the table from the season's rows up to and including that round. It tags each row with the round and the season and stores the table under `[season][round]`.

Modules:

- `standings.dfy` (`Standings`) holds the vocabulary:
  - match rows, the per-team counters (`Tally`), table rows and positions;
  - `TallyOf`, the reference fold that says what a team's counters are after a list of rows;
  - `IsStandings`, which says what it means for a table to be the standings of a list of rows: positions 1..N, ranked, exactly one row per team, and each row holding that team's accumulated counters.
- `ranking.dfy` (`Ranking`) holds the sort by (points, gd, gf) and its proofs: the result is ranked, and it is a permutation of its input.
- `table_builder.dfy` (`TableBuilder`) holds the builder as imperative code. A `map` accumulator is updated cell by cell in a loop, and the loop invariant ties it to `TallyOf`.
- `table_properties.dfy` (`TableProperties`) holds what every standings table satisfies:
  - points = 3w + d and gd = gf − ga on every row;
  - the game count per row;
  - the column totals;
  - the size of the table and its positions.
- `season_sweep.dfy` (`SeasonSweep`) holds the sweep over seasons and rounds.

Two details of the code that the model follows:

- **Other result codes.** A result code other than W, L or D still counts the game and the goals, but credits no points and no win, draw or loss (helpers/season_table.py:76-88; `Outcome.Unrecognised`).
- **Round filter.** Rows are kept when round > 0 (helpers/season_table.py:118), so negative rounds are dropped as well as round 0.

## Model

| member | source | states |
|---|---|---|
| `Ranking.InsertPermutes` | helpers/season_table.py:93-97 | inserting a row into the ranking adds exactly that row (multiset equality) |
| `Ranking.InsertRanked` | helpers/season_table.py:93-97 | inserting a row into a ranked list keeps it ranked by (points, gd, gf), highest first |
| `Ranking.SortByRankCorrect` | helpers/season_table.py:93-97 | sorting yields a list ranked by (points, gd, gf), highest first, that is a permutation of its input |
| `Ranking.PermutationKeepsTeamsDistinct` | helpers/season_table.py:93-97 | reordering rows with distinct teams keeps one row per team and the same set of teams |
| `TableBuilder.ZeroTable` | helpers/season_table.py:32-47 | the accumulator has a zero entry for exactly the teams named as team or opponent, and the team list holds each of them once |
| `TableBuilder.CreditAppearances` | helpers/season_table.py:59-67 | one row adds a game for both sides, gf/ga to its team and ga/gf to its opponent; every other team and every other counter is unchanged |
| `TableBuilder.CreditResult` | helpers/season_table.py:75-88 | W gives the team 3 points and a win and the opponent a loss; L is the reverse; D gives both 1 point and a draw; any other code changes nothing |
| `TableBuilder.CreditMatch` | helpers/season_table.py:50-88 | one loop step adds exactly that row's credit to every team, the same credit the reference fold adds |
| `TableBuilder.RowsWithGoalDifference` | helpers/season_table.py:90-91 | one row per listed team, carrying that team's counters and gd = gf - ga |
| `TableBuilder.CreditAll` | helpers/season_table.py:50-88 | after the loop over all rows, every team's counters are exactly the reference fold of the rows for that team |
| `TableBuilder.CalculateTableForRound` | helpers/season_table.py:27-102 | the result is a standings table of the input rows: positions 1..N, ranked by (points, gd, gf), exactly one row per team named as team or opponent, each row holding that team's accumulated counters |
| `TableBuilder.RankTable` | helpers/season_table.py:90-100 | the finished accumulator, with gd filled in, sorted and numbered, is a standings table of the input rows |
| `TableBuilder.AccumulatedRows` | helpers/season_table.py:90-91 | the rows built from the finished accumulator are each team's accumulated row, one per team of the input |
| `TableBuilder.NumberedRankedRows` | helpers/season_table.py:93-100 | sorting and numbering the accumulated rows gives a standings table: ranked, positions 1..N, rows unchanged |
| `TableProperties.PointsFromResults` | helpers/season_table.py:75-88 | every team's points equal 3 × wins + draws |
| `TableProperties.PlayedSplits` | helpers/season_table.py:59-88 | games played = wins + draws + losses + the team's appearances in rows whose result code is not W, L or D |
| `TableProperties.PlayedWhenRecognised` | helpers/season_table.py:59-88 | when every result code is W, L or D, games played = wins + draws + losses |
| `TableProperties.UnrecognisedIsNoOp` | helpers/season_table.py:75-88 | a row with another result code adds only the game and the goals; points, wins, draws and losses stay as they were |
| `TableProperties.CreditSplits` | helpers/season_table.py:59-88 | a row credits its team with the home share and its opponent with the away share (goals swapped, W and L exchanged); a club on both sides gets both |
| `TableProperties.SharesAddUp` | helpers/season_table.py:59-88 | the two shares of one row add up to 2 games, gf + ga goals on each side, and either 1 win + 1 loss + 3 points (W or L), or 2 draws + 2 points (D), or, for another result code, no wins, draws, losses or points |
| `TableProperties.TotalsBalance` | helpers/season_table.py:59-88 | over the rows: games = 2 × rows, goals for = goals against, wins = losses = decided rows, draws = 2 × drawn rows, points = 3 × decided + 2 × drawn |
| `TableProperties.ColumnSumIsTotal` | helpers/season_table.py:50-88 | the counters of distinct teams covering every team of the rows add up, column by column, to the table-wide totals of the rows |
| `TableProperties.StandingsTotals` | helpers/season_table.py:59-91 | in a standings table, games sum to 2 × rows, goals for sum to goals against, gd sums to 0, wins sum to losses, and points sum to 3 × (W and L rows) + 2 × (D rows) |
| `TableProperties.StandingsRowsConsistent` | helpers/season_table.py:75-91 | every row of a standings table has points = 3w + d and gd = gf - ga, and its games split into w + d + l plus its rows with an unrecognised result code |
| `TableProperties.StandingsSize` | helpers/season_table.py:32-100 | a standings table has exactly as many rows as distinct teams, and its positions are exactly 1, 2, ..., N |
| `TableProperties.EmptyInputEmptyTable` | helpers/season_table.py:32-36 | no match rows give an empty table |
| `SeasonSweep.Filter` | helpers/season_table.py:115-125 | the selected rows are the rows of the input that satisfy the condition, each kept as many times as it occurs in the input; the others are dropped |
| `SeasonSweep.SeasonData` | helpers/season_table.py:115-118 | a season's data holds each of its rows whose round is greater than 0 as many times as the input does, and no other row |
| `SeasonSweep.UpToRound` | helpers/season_table.py:125 | each row whose round is at most the given round, as many times as in the input, and no other row |
| `SeasonSweep.Snapshot` | helpers/season_table.py:115-125 | the rows behind the table for (s, r) are those of season s with 0 < round <= r, each as many times as in the input, and no other row |
| `SeasonSweep.TagKeepsTable` | helpers/season_table.py:129-130 | tagging keeps the table as it is and sets the round and season of every row |
| `SeasonSweep.InsertRound` | helpers/season_table.py:120 | inserting a round into a strictly increasing list keeps it strictly increasing and adds exactly that round |
| `SeasonSweep.SortedRounds` | helpers/season_table.py:120 | the rounds are strictly increasing (sorted, no repeats) and are exactly the rounds named in the rows |
| `SeasonSweep.RoundTable` | helpers/season_table.py:125-130 | the table for one round is a standings table of the season's rows up to that round, every row tagged with that round and season |
| `SeasonSweep.TablesForSeason` | helpers/season_table.py:120-132 | a season's tables are keyed by exactly its distinct rounds, and the table at r is the tagged standings of the rows up to r |
| `SeasonSweep.GenerateAllSeasonTables` | helpers/season_table.py:105-136 | the keys are exactly the seasons of the data, including a season with no rounds left; each season's keys are its rounds > 0; and the table at [s][r] is the standings of season s's rows with 0 < round <= r, tagged with r and s |
| `SeasonSweep.RoundsOfSeason` | helpers/season_table.py:117-121 | a round is a key of season s exactly when it is greater than 0 and some row of season s has it, so round 0 is never a key |
| `SeasonSweep.LastRoundCoversSeason` | helpers/season_table.py:123-128 | the table for the season's last round is built from every row of the season outside round 0 |

## Left out

- The `xg_for`/`xg_against` columns and the substitution of 0.0 for a missing `xg`/`xga` (helpers/season_table.py:45-46, 55-57, 69-73). These are floating-point sums that nothing else in the computation reads.
- `load_season_tables` (helpers/season_table.py:3-24). It reads a parquet file and regroups it, which is file I/O only.
- The progress messages (helpers/season_table.py:114, 134). They are console output only.
- The order of tied rows:
  - The model proves the table is ranked and is a permutation of the accumulated rows.
  - It does not say how rows that tie on (points, gd, gf) are ordered among themselves. That order comes from the first-appearance order of `pd.unique` and from how pandas sorts.
  - `ZeroTable` lists teams in first-appearance order, but nothing downstream relies on it.
- The order in which seasons are visited. The source visits seasons in sorted order. `GenerateAllSeasonTables` visits them in an unspecified order, because Dafny has no built-in order on strings. Each season's tables depend only on that season's rows, so the contents of the result are the same.
- The key order of the result. The source's nested dictionaries keep insertion order: seasons sorted (helpers/season_table.py:111) and, within a season, rounds ascending (helpers/season_table.py:120). `GenerateAllSeasonTables` and `TablesForSeason` return Dafny maps, which have no key order, so neither level's order is modelled; the rounds are still computed in ascending order (`SortedRounds`).
- Which table the builder returns when several tables qualify:
  - `CalculateTableForRound` is specified by `IsStandings`, which fixes every row's counters and the ranking.
  - When rows tie on all three keys, more than one table satisfies `IsStandings`.
  - The model does not prove that the builder is deterministic, or that the sweep is idempotent.
- Column types:
  - Team and season names are modelled as strings.
  - Rounds and goals are unbounded integers; the model does not bound them the way pandas' integer columns would.
  - A result code other than "W", "L" or "D" is the single value `Unrecognised`.
