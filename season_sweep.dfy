/** The sweep over a whole data set: for every season, one standings table
    per round, each built from that season's rows up to and including that
    round. */
module SeasonSweep {
  import opened Standings
  import opened TableBuilder

  /** A standings row tagged with the round and the season it belongs to. */
  datatype TaggedStanding = TaggedStanding(entry: Standing, round: int, season: Season)

  /** The rows of `ms` that `keep` accepts, in their original order. */
  function Filter(ms: seq<Match>, keep: Match -> bool): (kept: seq<Match>)
    ensures |kept| <= |ms|
    ensures forall m :: m in kept <==> m in ms && keep(m)
    ensures forall m :: multiset(kept)[m] == if keep(m) then multiset(ms)[m] else 0
  {
    if ms == [] then []
    else
      var init, last := ms[..|ms| - 1], ms[|ms| - 1];
      assert ms == init + [last];
      assert multiset(ms) == multiset(init) + multiset{last};
      var rest, tail := Filter(init, keep), if keep(last) then [last] else [];
      assert multiset(rest + tail) == multiset(rest) + multiset(tail);
      rest + tail
  }

  /** Every season named in the data. */
  function SeasonsOf(df: seq<Match>): set<Season>
  {
    set m | m in df :: m.season
  }

  /** Every round named in `ms`. */
  function RoundsOf(ms: seq<Match>): set<int>
  {
    set m | m in ms :: m.round
  }

  /** The rows of season `s` outside round 0, where round 0 holds the
      play-offs. */
  function SeasonData(df: seq<Match>, s: Season): (ms: seq<Match>)
    ensures forall m :: m in ms <==> m in df && m.season == s && m.round > 0
    ensures forall m :: multiset(ms)[m] == if m.season == s && m.round > 0 then multiset(df)[m] else 0
  {
    Filter(Filter(df, (m: Match) => m.season == s), (m: Match) => m.round > 0)
  }

  /** The rows of `ms` up to and including round `r`. */
  function UpToRound(ms: seq<Match>, r: int): (upTo: seq<Match>)
    ensures forall m :: m in upTo <==> m in ms && m.round <= r
    ensures forall m :: multiset(upTo)[m] == if m.round <= r then multiset(ms)[m] else 0
  {
    Filter(ms, (m: Match) => m.round <= r)
  }

  /** The rows the table of season `s` after round `r` is built from. */
  function Snapshot(df: seq<Match>, s: Season, r: int): (ms: seq<Match>)
    ensures forall m :: m in ms <==> m in df && m.season == s && 0 < m.round <= r
    ensures forall m :: multiset(ms)[m] == if m.season == s && 0 < m.round <= r then multiset(df)[m] else 0
  {
    UpToRound(SeasonData(df, s), r)
  }

  /** Every row of a table tagged with round `r` and season `s`. */
  function Tag(table: seq<Standing>, r: int, s: Season): seq<TaggedStanding>
  {
    seq(|table|, i requires 0 <= i < |table| => TaggedStanding(table[i], r, s))
  }

  /** The standings rows without their tags. */
  function Entries(tagged: seq<TaggedStanding>): seq<Standing>
  {
    seq(|tagged|, i requires 0 <= i < |tagged| => tagged[i].entry)
  }

  /** Tagging keeps the table intact and tags every row. */
  lemma TagKeepsTable(table: seq<Standing>, r: int, s: Season)
    ensures Entries(Tag(table, r, s)) == table
    ensures forall i :: 0 <= i < |table| ==> Tag(table, r, s)[i].round == r && Tag(table, r, s)[i].season == s
  {
    assert Entries(Tag(table, r, s)) == table;
  }

  /** `tagged` is a standings table of `ms` with every row tagged with round
      `r` and season `s`. */
  ghost predicate IsTaggedStandings(ms: seq<Match>, r: int, s: Season, tagged: seq<TaggedStanding>)
  {
    && (forall i :: 0 <= i < |tagged| ==> tagged[i].round == r && tagged[i].season == s)
    && IsStandings(ms, Entries(tagged))
  }

  ghost predicate Increasing(rounds: seq<int>)
  {
    forall i, j :: 0 <= i < j < |rounds| ==> rounds[i] < rounds[j]
  }

  /** `r` placed into the strictly increasing `rounds` unless it is there
      already. */
  function InsertRound(r: int, rounds: seq<int>): (out: seq<int>)
    requires Increasing(rounds)
    ensures Increasing(out)
    ensures forall q :: q in out <==> q == r || q in rounds
  {
    if rounds == [] then [r]
    else if r < rounds[0] then [r] + rounds
    else if r == rounds[0] then rounds
    else
      var rest := InsertRound(r, rounds[1..]);
      assert forall j :: 0 <= j < |rest| ==> rounds[0] < rest[j] by {
        forall j | 0 <= j < |rest| ensures rounds[0] < rest[j] {
          assert rest[j] in rest;
          if rest[j] != r {
            var i :| 0 <= i < |rounds[1..]| && rounds[1..][i] == rest[j];
            assert rounds[i + 1] == rest[j];
          }
        }
      }
      [rounds[0]] + rest
  }

  /** The distinct rounds of `ms`, smallest first. */
  function SortedRounds(ms: seq<Match>): (rounds: seq<int>)
    ensures Increasing(rounds)
    ensures forall q :: q in rounds <==> q in RoundsOf(ms)
  {
    if ms == [] then []
    else
      var init := ms[..|ms| - 1];
      assert ms == init + [ms[|ms| - 1]];
      InsertRound(ms[|ms| - 1].round, SortedRounds(init))
  }

  /** The tables of one season: for each round of `seasonData`, smallest
      first, the standings after the rows up to and including that round,
      tagged with the round and the season. */
  method TablesForSeason(seasonData: seq<Match>, s: Season)
    returns (tables: map<int, seq<TaggedStanding>>)
    ensures tables.Keys == RoundsOf(seasonData)
    ensures forall r :: r in tables ==> IsTaggedStandings(UpToRound(seasonData, r), r, s, tables[r])
  {
    var rounds := SortedRounds(seasonData);
    tables := map[];
    for i := 0 to |rounds|
      invariant forall r :: r in tables <==> r in rounds[..i]
      invariant forall r :: r in tables ==> IsTaggedStandings(UpToRound(seasonData, r), r, s, tables[r])
    {
      var tagged := RoundTable(seasonData, rounds[i], s);
      tables := tables[rounds[i] := tagged];
      assert rounds[..i + 1] == rounds[..i] + [rounds[i]];
    }
    assert rounds[..|rounds|] == rounds;
  }

  /** The standings after the rows of `seasonData` up to and including
      round `r`, every row tagged with `r` and `s`. */
  method RoundTable(seasonData: seq<Match>, r: int, s: Season) returns (tagged: seq<TaggedStanding>)
    ensures IsTaggedStandings(UpToRound(seasonData, r), r, s, tagged)
  {
    var table := CalculateTableForRound(UpToRound(seasonData, r));
    TagKeepsTable(table, r, s);
    tagged := Tag(table, r, s);
  }

  /** `tables` are the tables of season `s` of `df`: one per round of the
      season other than 0, each the tagged standings of the season's rows up
      to that round. */
  ghost predicate IsSeasonTables(df: seq<Match>, s: Season, tables: map<int, seq<TaggedStanding>>)
  {
    && tables.Keys == RoundsOf(SeasonData(df, s))
    && forall r :: r in tables ==> IsTaggedStandings(Snapshot(df, s, r), r, s, tables[r])
  }

  /** Every season of the data mapped to its tables, one per round other
      than round 0. */
  method GenerateAllSeasonTables(df: seq<Match>)
    returns (all: map<Season, map<int, seq<TaggedStanding>>>)
    ensures all.Keys == SeasonsOf(df)
    ensures forall s :: s in all ==> all[s].Keys == RoundsOf(SeasonData(df, s))
    ensures forall s, r :: s in all && r in all[s] ==> IsTaggedStandings(Snapshot(df, s, r), r, s, all[s][r])
  {
    var seasons := SeasonsOf(df);
    var remaining := seasons;
    all := map[];
    while remaining != {}
      invariant remaining <= seasons
      invariant all.Keys == seasons - remaining
      invariant forall s :: s in all ==> IsSeasonTables(df, s, all[s])
      decreases remaining
    {
      var s :| s in remaining;
      var tables := TablesForSeason(SeasonData(df, s), s);
      assert IsSeasonTables(df, s, tables);
      all := all[s := tables];
      remaining := remaining - {s};
    }
  }

  /** The rounds of a season's tables are exactly the rounds other than 0
      that the season's rows name; round 0 is never one of them. */
  lemma RoundsOfSeason(df: seq<Match>, s: Season)
    ensures forall r :: r in RoundsOf(SeasonData(df, s)) <==>
      r > 0 && exists m :: m in df && m.season == s && m.round == r
    ensures 0 !in RoundsOf(SeasonData(df, s))
  {
    forall r | r > 0 && exists m :: m in df && m.season == s && m.round == r
      ensures r in RoundsOf(SeasonData(df, s))
    {
      var m :| m in df && m.season == s && m.round == r;
      assert m in SeasonData(df, s);
    }
  }

  /** Rows all accepted by `keep` are kept as they are. */
  lemma {:induction false} FilterKeepsAll(ms: seq<Match>, keep: Match -> bool)
    requires forall m :: m in ms ==> keep(m)
    ensures Filter(ms, keep) == ms
  {
    if ms != [] {
      var init := ms[..|ms| - 1];
      assert ms == init + [ms[|ms| - 1]];
      FilterKeepsAll(init, keep);
    }
  }

  /** The table after the season's last round is built from every row of
      the season outside round 0. */
  lemma LastRoundCoversSeason(df: seq<Match>, s: Season, r: int)
    requires forall q :: q in RoundsOf(SeasonData(df, s)) ==> q <= r
    ensures Snapshot(df, s, r) == SeasonData(df, s)
  {
    var season := SeasonData(df, s);
    forall m | m in season ensures m.round <= r {
      assert m.round in RoundsOf(season);
    }
    FilterKeepsAll(season, (m: Match) => m.round <= r);
  }
}
