/**
 The `rating` table and the operations on it, as values.

 A database row has a surrogate `id`, a unique `user_id`, a nickname and two
 answer counters. The table is modelled as a map from `user_id` to the rest of
 the row, so the uniqueness of `user_id` holds by construction, and every
 query `filter(user_id == k).first()` / `one_or_none()` is a map lookup.
 Each mutating operation is a function from the old table to an `Update`:
 the new table and the boolean the operation returns.
 */
module RatingTable {
  import opened Wrappers

  /** The columns of one row besides `id` and `user_id`. */
  datatype Rating = Rating(nickname: string, totalCorrect: int, totalWrong: int)

  /** The tuple `(user_id, nickname, total_correct, total_wrong)` the readers return. */
  datatype RatingRow = RatingRow(userId: int, nickname: string, totalCorrect: int, totalWrong: int)

  type Table = map<int, Rating>

  /** The table after a mutating operation, and the operation's boolean result. */
  datatype Update = Update(table: Table, ok: bool)

  /** Nickname given to every freshly initialised record. */
  const DefaultNickname: string := "Some user \U{1F41F}"

  /** The leaderboard's sort key, `total_correct + total_wrong`. */
  function Score(r: Rating): int
  {
    r.totalCorrect + r.totalWrong
  }

  /** Counters start at zero and only ever grow, so they are never negative. */
  predicate CountersNonNegative(t: Table)
  {
    forall k :: k in t ==> t[k].totalCorrect >= 0 && t[k].totalWrong >= 0
  }

  /** The record of `userId` in the shape the readers return. */
  function RowOf(t: Table, userId: int): (row: RatingRow)
    requires userId in t
    ensures row.userId == userId && row.nickname == t[userId].nickname
    ensures row.totalCorrect == t[userId].totalCorrect && row.totalWrong == t[userId].totalWrong
  {
    RatingRow(userId, t[userId].nickname, t[userId].totalCorrect, t[userId].totalWrong)
  }

  /** `get_user_rating`: a point lookup by `user_id`; `None` when there is no record. */
  function GetUserRating(t: Table, userId: int): (r: Option<RatingRow>)
    ensures r.Some? <==> userId in t
    ensures r.Some? ==> r.value.userId == userId && r.value == RowOf(t, userId)
  {
    if userId in t then Some(RowOf(t, userId)) else None
  }

  /**
   `init_rating`: creates a record with the default nickname and zero counters
   unless `userId` already has one, in which case nothing changes.
   */
  function InitRating(t: Table, userId: int): (u: Update)
    ensures u.ok <==> userId !in t
    ensures !u.ok ==> u.table == t
    ensures u.ok ==> u.table.Keys == t.Keys + {userId} && |u.table| == |t| + 1
    ensures u.ok ==> u.table[userId] == Rating(DefaultNickname, 0, 0)
    ensures forall k :: k in t ==> k in u.table && u.table[k] == t[k]
    ensures CountersNonNegative(t) ==> CountersNonNegative(u.table)
  {
    if userId in t then Update(t, false)
    else Update(t[userId := Rating(DefaultNickname, 0, 0)], true)
  }

  /**
   `update_correct_rating`: adds one to `total_correct` of an existing record;
   on a missing record it reports failure and creates nothing.
   */
  function UpdateCorrectRating(t: Table, userId: int): (u: Update)
    ensures u.ok <==> userId in t
    ensures u.table.Keys == t.Keys
    ensures !u.ok ==> u.table == t
    ensures u.ok ==> u.table[userId].totalCorrect == t[userId].totalCorrect + 1
    ensures u.ok ==> u.table[userId].totalWrong == t[userId].totalWrong
    ensures u.ok ==> u.table[userId].nickname == t[userId].nickname
    ensures forall k :: k in t && k != userId ==> u.table[k] == t[k]
    ensures CountersNonNegative(t) ==> CountersNonNegative(u.table)
  {
    if userId in t then
      var w := t[userId];
      Update(t[userId := w.(totalCorrect := w.totalCorrect + 1)], true)
    else Update(t, false)
  }

  /**
   `update_wrong_rating`: adds one to `total_wrong` of an existing record;
   on a missing record it reports failure and creates nothing.
   */
  function UpdateWrongRating(t: Table, userId: int): (u: Update)
    ensures u.ok <==> userId in t
    ensures u.table.Keys == t.Keys
    ensures !u.ok ==> u.table == t
    ensures u.ok ==> u.table[userId].totalWrong == t[userId].totalWrong + 1
    ensures u.ok ==> u.table[userId].totalCorrect == t[userId].totalCorrect
    ensures u.ok ==> u.table[userId].nickname == t[userId].nickname
    ensures forall k :: k in t && k != userId ==> u.table[k] == t[k]
    ensures CountersNonNegative(t) ==> CountersNonNegative(u.table)
  {
    if userId in t then
      var w := t[userId];
      Update(t[userId := w.(totalWrong := w.totalWrong + 1)], true)
    else Update(t, false)
  }

  /**
   `change_nickname`: overwrites the nickname of an existing record and leaves
   its counters alone; on a missing record it reports failure and creates nothing.
   */
  function ChangeNickname(t: Table, userId: int, nickname: string): (u: Update)
    ensures u.ok <==> userId in t
    ensures u.table.Keys == t.Keys
    ensures !u.ok ==> u.table == t
    ensures u.ok ==> u.table[userId].nickname == nickname
    ensures u.ok ==> u.table[userId].totalCorrect == t[userId].totalCorrect
    ensures u.ok ==> u.table[userId].totalWrong == t[userId].totalWrong
    ensures forall k :: k in t && k != userId ==> u.table[k] == t[k]
    ensures CountersNonNegative(t) ==> CountersNonNegative(u.table)
  {
    if userId in t then
      Update(t[userId := t[userId].(nickname := nickname)], true)
    else Update(t, false)
  }

  /**
   `delete_user`: removes the record of `userId` if there is one; afterwards a
   lookup of `userId` finds nothing, and every other record is as it was.
   */
  function DeleteUser(t: Table, userId: int): (u: Update)
    ensures u.ok <==> userId in t
    ensures u.table.Keys == t.Keys - {userId}
    ensures !u.ok ==> u.table == t
    ensures u.ok ==> |u.table| == |t| - 1
    ensures forall k :: k in u.table ==> u.table[k] == t[k]
    ensures GetUserRating(u.table, userId) == None
    ensures CountersNonNegative(t) ==> CountersNonNegative(u.table)
  {
    if userId in t then Update(t - {userId}, true) else Update(t, false)
  }

  /**
   `RatingServicer.update_rating`: the boolean of a mutating operation becomes
   the status field of the reply, 1 for success and 0 for failure.
   */
  function UpdateRatingStatus(ok: bool): (status: int)
    ensures status == 1 <==> ok
    ensures status == 0 <==> !ok
  {
    if ok then 1 else 0
  }
}
