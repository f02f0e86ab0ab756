/**
 `get_rating`: the top-20 leaderboard, the query
 `order_by((total_correct + total_wrong).desc()).limit(20)`.

 The ordering among equal scores is whatever the store yields and is left
 open: the contracts state only that scores do not increase along the result
 and that no record left out scores higher than one returned. In the model's
 ranking, ties come out in descending `user_id` order.
 */
module Leaderboard {
  import opened Wrappers
  import opened RatingTable

  /** The `limit(20)` of the query. */
  const TopLimit: nat := 20

  /** The score of the record of `k`, or 0 for a key with no record. */
  function ScoreOf(t: Table, k: int): int
  {
    if k in t then Score(t[k]) else 0
  }

  /** The sort key of a returned row: the `Score` of the record it was built from. */
  function RowScore(row: RatingRow): int
  {
    Score(Rating(row.nickname, row.totalCorrect, row.totalWrong))
  }

  /** Earlier keys score at least as much as later ones. */
  predicate RankedByScore(t: Table, s: seq<int>)
  {
    forall i, j :: 0 <= i < j < |s| ==> ScoreOf(t, s[i]) >= ScoreOf(t, s[j])
  }

  predicate Distinct(s: seq<int>)
  {
    forall i, j :: 0 <= i < j < |s| ==> s[i] != s[j]
  }

  /** The `user_id` column of a list of rows. */
  function UserIds(rows: seq<RatingRow>): (ids: seq<int>)
    ensures |ids| == |rows|
    ensures forall i :: 0 <= i < |rows| ==> ids[i] == rows[i].userId
  {
    seq(|rows|, i requires 0 <= i < |rows| => rows[i].userId)
  }

  lemma NoMemberIsEmpty(s: set<int>)
    requires forall y :: y !in s
    ensures s == {}
  {
    assert forall y :: y in s <==> y in {};
  }

  predicate IsMin(s: set<int>, m: int)
  {
    m in s && forall x :: x in s ==> m <= x
  }

  lemma {:induction false} MinExists(s: set<int>)
    requires s != {}
    ensures exists m :: IsMin(s, m)
    decreases |s|
  {
    if forall y :: y !in s {
      NoMemberIsEmpty(s);
      assert false;
    }
    var y :| y in s;
    var rest := s - {y};
    if rest == {} {
      assert forall x :: x in s ==> x in rest || x == y;
      assert IsMin(s, y);
    } else {
      MinExists(rest);
      var m :| IsMin(rest, m);
      var least := if y < m then y else m;
      forall x | x in s
        ensures least <= x
      {
        if x != y {
          assert x in rest;
        }
      }
      assert IsMin(s, least);
    }
  }

  /** The smallest key of a non-empty set of keys. */
  function MinKey(s: set<int>): (m: int)
    requires s != {}
    ensures m in s && forall x :: x in s ==> m <= x
  {
    MinExists(s);
    var m :| IsMin(s, m);
    m
  }

  /** Places `k` behind every key of `s` that scores at least as much. */
  function InsertByScore(t: Table, k: int, s: seq<int>): (r: seq<int>)
    ensures |r| == |s| + 1
    ensures forall x :: x in r <==> x in s || x == k
    decreases |s|
  {
    if s == [] then [k]
    else if ScoreOf(t, s[0]) >= ScoreOf(t, k) then
      var rest := InsertByScore(t, k, s[1..]);
      assert forall x :: x in s[1..] ==> x in s;
      [s[0]] + rest
    else [k] + s
  }

  /** A key that scores at least as much as every key of a ranking can head it. */
  lemma RankedCons(t: Table, h: int, s: seq<int>)
    requires RankedByScore(t, s)
    requires forall x :: x in s ==> ScoreOf(t, h) >= ScoreOf(t, x)
    ensures RankedByScore(t, [h] + s)
  {
  }

  lemma {:induction false} InsertKeepsRanked(t: Table, k: int, s: seq<int>)
    requires RankedByScore(t, s)
    ensures RankedByScore(t, InsertByScore(t, k, s))
    decreases |s|
  {
    if s == [] {
    } else if ScoreOf(t, s[0]) >= ScoreOf(t, k) {
      var tail := s[1..];
      assert RankedByScore(t, tail) by {
        forall i, j | 0 <= i < j < |tail|
          ensures ScoreOf(t, tail[i]) >= ScoreOf(t, tail[j])
        {
          assert tail[i] == s[i + 1] && tail[j] == s[j + 1];
        }
      }
      InsertKeepsRanked(t, k, tail);
      forall x | x in tail
        ensures ScoreOf(t, s[0]) >= ScoreOf(t, x)
      {
        var j :| 0 <= j < |tail| && tail[j] == x;
        assert s[j + 1] == x;
      }
      RankedCons(t, s[0], InsertByScore(t, k, tail));
    } else {
      forall x | x in s
        ensures ScoreOf(t, k) >= ScoreOf(t, x)
      {
        var j :| 0 <= j < |s| && s[j] == x;
        assert ScoreOf(t, s[0]) >= ScoreOf(t, s[j]);
      }
      RankedCons(t, k, s);
    }
  }

  lemma {:induction false} InsertKeepsDistinct(t: Table, k: int, s: seq<int>)
    requires Distinct(s) && k !in s
    ensures Distinct(InsertByScore(t, k, s))
    decreases |s|
  {
    if s != [] && ScoreOf(t, s[0]) >= ScoreOf(t, k) {
      var rest := InsertByScore(t, k, s[1..]);
      assert forall x :: x in s[1..] ==> x in s;
      InsertKeepsDistinct(t, k, s[1..]);
      assert s[0] !in s[1..];
      var r := [s[0]] + rest;
      forall i, j | 0 <= i < j < |r|
        ensures r[i] != r[j]
      {
        if i == 0 {
          assert r[j] == rest[j - 1];
          assert rest[j - 1] in rest;
        } else {
          assert r[i] == rest[i - 1] && r[j] == rest[j - 1];
        }
      }
    } else if s != [] {
      forall i, j | 0 <= i < j < |s| + 1
        ensures ([k] + s)[i] != ([k] + s)[j]
      {
        if i == 0 {
          assert ([k] + s)[j] == s[j - 1];
        } else {
          assert ([k] + s)[i] == s[i - 1] && ([k] + s)[j] == s[j - 1];
        }
      }
    }
  }

  /** Every key of `keys`, once each, highest score first. */
  function RankKeys(t: Table, keys: set<int>): (r: seq<int>)
    ensures |r| == |keys|
    ensures forall x :: x in r <==> x in keys
    ensures Distinct(r)
    ensures RankedByScore(t, r)
    decreases |keys|
  {
    if keys == {} then []
    else
      var k := MinKey(keys);
      var rest := RankKeys(t, keys - {k});
      InsertKeepsRanked(t, k, rest);
      InsertKeepsDistinct(t, k, rest);
      InsertByScore(t, k, rest)
  }

  /** A prefix of a ranking is a ranking, and outscores every key it leaves out. */
  lemma RankedPrefix(t: Table, ranked: seq<int>, n: nat)
    requires Distinct(ranked) && RankedByScore(t, ranked)
    requires n <= |ranked|
    ensures Distinct(ranked[..n]) && RankedByScore(t, ranked[..n])
    ensures forall k, i :: k in ranked && k !in ranked[..n] && 0 <= i < n ==>
      ScoreOf(t, k) <= ScoreOf(t, ranked[..n][i])
  {
  }

  /** The keys `get_rating` returns: the first `min(20, |t|)` keys of the ranking. */
  function TopKeys(t: Table): (top: seq<int>)
    ensures |top| == if |t| < TopLimit then |t| else TopLimit
    ensures forall i :: 0 <= i < |top| ==> top[i] in t
    ensures Distinct(top)
    ensures RankedByScore(t, top)
    ensures forall k, i :: k in t && k !in top && 0 <= i < |top| ==> Score(t[k]) <= ScoreOf(t, top[i])
  {
    var ranked := RankKeys(t, t.Keys);
    assert |t.Keys| == |t|;
    var n := if |ranked| < TopLimit then |ranked| else TopLimit;
    RankedPrefix(t, ranked, n);
    assert forall i :: 0 <= i < n ==> ranked[..n][i] in ranked;
    ranked[..n]
  }

  /** The rows of the records of `keys`, in the same order. */
  function RowsOf(t: Table, keys: seq<int>): (rows: seq<RatingRow>)
    requires forall i :: 0 <= i < |keys| ==> keys[i] in t
    ensures |rows| == |keys|
    ensures forall i :: 0 <= i < |keys| ==> rows[i] == RowOf(t, keys[i])
  {
    seq(|keys|, i requires 0 <= i < |keys| => RowOf(t, keys[i]))
  }

  /**
   `get_rating`: at most 20 rows, each the row of a distinct stored record,
   in non-increasing order of score, and no record left out scores more than
   any row returned. An empty table gives `None`, not an empty list.
   */
  function GetRating(t: Table): (r: Option<seq<RatingRow>>)
    ensures r.None? <==> |t| == 0
    ensures r.Some? ==> |r.value| == if |t| < TopLimit then |t| else TopLimit
    ensures r.Some? ==> forall i :: 0 <= i < |r.value| ==>
      r.value[i].userId in t && r.value[i] == RowOf(t, r.value[i].userId)
    ensures r.Some? ==> Distinct(UserIds(r.value))
    ensures r.Some? ==> forall i, j :: 0 <= i < j < |r.value| ==>
      RowScore(r.value[i]) >= RowScore(r.value[j])
    ensures r.Some? ==> forall k, i :: k in t && k !in UserIds(r.value) && 0 <= i < |r.value| ==>
      Score(t[k]) <= RowScore(r.value[i])
  {
    var top := TopKeys(t);
    if |top| == 0 then None
    else
      var rows := RowsOf(t, top);
      assert UserIds(rows) == top;
      Some(rows)
  }
}
