/** Ordering the accumulated rows by (points, gd, gf), best first. */
module Ranking {
  import opened Standings

  /** `r` placed into the ranked `s`, after every row that ranks at least as
      high as `r`. */
  function Insert(r: Row, s: seq<Row>): seq<Row>
  {
    if s == [] then [r]
    else if RanksAtLeast(s[0], r) then [s[0]] + Insert(r, s[1..])
    else [r] + s
  }

  /** The rows ordered best first. */
  function SortByRank(rows: seq<Row>): seq<Row>
  {
    if rows == [] then []
    else Insert(rows[|rows| - 1], SortByRank(rows[..|rows| - 1]))
  }

  /** Inserting adds exactly `r`: the result is a permutation of `s` plus `r`. */
  lemma {:induction false} InsertPermutes(r: Row, s: seq<Row>)
    ensures multiset(Insert(r, s)) == multiset(s) + multiset{r}
  {
    if s != [] && RanksAtLeast(s[0], r) {
      assert s == [s[0]] + s[1..];
      InsertPermutes(r, s[1..]);
    }
  }

  /** Inserting into a ranked sequence keeps it ranked. */
  lemma {:induction false} InsertRanked(r: Row, s: seq<Row>)
    requires Ranked(s)
    ensures Ranked(Insert(r, s))
  {
    if s == [] {
    } else if RanksAtLeast(s[0], r) {
      var tail := Insert(r, s[1..]);
      InsertRanked(r, s[1..]);
      InsertPermutes(r, s[1..]);
      forall x | x in tail ensures RanksAtLeast(s[0], x) {
        assert x in multiset(tail);
      }
      ConsRanked(s[0], tail);
    } else {
      forall y | y in s ensures RanksAtLeast(r, y) {
        RanksAtLeastTransitive(r, s[0], y);
      }
      ConsRanked(r, s);
    }
  }

  /** Sorting permutes the rows and leaves them ranked best first. */
  lemma {:induction false} SortByRankCorrect(rows: seq<Row>)
    ensures Ranked(SortByRank(rows))
    ensures multiset(SortByRank(rows)) == multiset(rows)
  {
    if rows != [] {
      var init, last := rows[..|rows| - 1], rows[|rows| - 1];
      assert rows == init + [last];
      SortByRankCorrect(init);
      InsertRanked(last, SortByRank(init));
      InsertPermutes(last, SortByRank(init));
    }
  }

  /** Rows with distinct teams stay distinct under any permutation. */
  lemma PermutationKeepsTeamsDistinct(a: seq<Row>, b: seq<Row>)
    requires multiset(a) == multiset(b)
    requires DistinctTeams(a)
    ensures DistinctTeams(b)
    ensures TeamsOfRows(a) == TeamsOfRows(b)
  {
    forall x ensures x in a <==> x in b {
      assert x in a <==> x in multiset(a);
      assert x in b <==> x in multiset(b);
    }
    forall i, j | 0 <= i < j < |b| ensures b[i].team != b[j].team {
      if b[i].team == b[j].team {
        assert b[i] in multiset(a) && b[j] in multiset(a);
        var p :| 0 <= p < |a| && a[p] == b[i];
        var q :| 0 <= q < |a| && a[q] == b[j];
        if p == q {
          OccursTwice(b, i, j);
          OccursOnce(a, p);
          assert false;
        } else {
          assert false;
        }
      }
    }
  }

  /** A row at two indices occurs at least twice. */
  lemma OccursTwice(s: seq<Row>, i: int, j: int)
    requires 0 <= i < j < |s| && s[i] == s[j]
    ensures multiset(s)[s[i]] >= 2
  {
    var x := s[i];
    assert s == s[..i] + [x] + s[i + 1..j] + [x] + s[j + 1..];
  }

  /** In rows with distinct teams every row occurs once. */
  lemma OccursOnce(s: seq<Row>, p: int)
    requires DistinctTeams(s) && 0 <= p < |s|
    ensures multiset(s)[s[p]] == 1
  {
    var x, before, after := s[p], s[..p], s[p + 1..];
    assert s == before + [x] + after;
    assert x !in before by {
      forall y | y in before ensures y != x {
        var k :| 0 <= k < p && s[k] == y;
      }
    }
    assert x !in after by {
      forall y | y in after ensures y != x {
        var k :| p < k < |s| && s[k] == y;
      }
    }
    assert multiset(before)[x] == 0 && multiset(after)[x] == 0;
  }

  lemma RanksAtLeastTransitive(a: Row, b: Row, c: Row)
    requires RanksAtLeast(a, b) && RanksAtLeast(b, c)
    ensures RanksAtLeast(a, c)
  {
  }

  /** A row ranking at least as high as every row of a ranked sequence can
      head it. */
  lemma ConsRanked(x: Row, s: seq<Row>)
    requires Ranked(s)
    requires forall y :: y in s ==> RanksAtLeast(x, y)
    ensures Ranked([x] + s)
  {
    var c := [x] + s;
    forall i, j | 0 <= i < j < |c| ensures RanksAtLeast(c[i], c[j]) {
      if i > 0 {
        assert c[i] == s[i - 1] && c[j] == s[j - 1];
      } else {
        assert c[j] in s;
      }
    }
  }
}
