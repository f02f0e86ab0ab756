# Rating service model

A Dafny model of the rating service in `main.py`: one table, `rating`, with a
record per quiz player (`user_id`, nickname, number of correct and of wrong
answers), five mutating operations that each return a success flag, a point
lookup, the top-20 leaderboard, and the servicer helper that turns a success
flag into the status 1 or 0 of a reply.

- `wrappers.dfy` — `Option`, the reader's "nothing found" (`None`).
- `rating_table.dfy` (module `RatingTable`) — the record, the table as a map
  from `user_id` to the rest of the row, and every mutating operation as a function from
  the old table to the new table and the flag. Keying the map by `user_id` is
  the unique constraint on that column: at most one record per user holds by
  construction.
- `leaderboard.dfy` (module `Leaderboard`) — `get_rating`: rank by
  `total_correct + total_wrong`, highest first, and keep the first 20.
- `rating_store.dfy` (module `RatingService`) — class `RatingStore`, whose
  field `table` the mutating methods update in place, one atomic method per
  operation; each is specified by the function of `RatingTable` with the same name.
- `history.dfy` (module `History`) — the mutating servicer calls, the storage
  operation each one delegates to, the reply status, and what a sequence of
  calls does to the table.

`get_rating` returns `None`, not an empty list, for an empty table
(`if rating:` at main.py:45 falls through); `Leaderboard.GetRating` follows that.

## Model

| member | source | states |
|---|---|---|
| RatingTable.RowOf | main.py:52-55 | the row of a stored record is the tuple of its `user_id`, nickname, `total_correct` and `total_wrong` |
| RatingTable.GetUserRating | main.py:48-55 | a row is found exactly when the user has a record, and it is that record's `(user_id, nickname, total_correct, total_wrong)` |
| RatingTable.InitRating | main.py:57-63 | fails and leaves the table unchanged when the user has a record; otherwise succeeds, adds exactly one record (default nickname, both counters 0), keeps every other record, and keeps counters non-negative |
| RatingTable.UpdateCorrectRating | main.py:65-71 | fails and creates nothing for a missing user; otherwise adds exactly 1 to `total_correct`, leaves its nickname, `total_wrong` and every other record unchanged, and keeps counters non-negative |
| RatingTable.UpdateWrongRating | main.py:73-79 | fails and creates nothing for a missing user; otherwise adds exactly 1 to `total_wrong`, leaves its nickname, `total_correct` and every other record unchanged |
| RatingTable.ChangeNickname | main.py:81-87 | fails and creates nothing for a missing user; otherwise sets only that record's nickname, leaving its counters and every other record unchanged |
| RatingTable.DeleteUser | main.py:89-95 | succeeds exactly when the user has a record, removes just that key, after which the lookup finds nothing; a missing user leaves the table unchanged |
| RatingTable.UpdateRatingStatus | main.py:127-134 | the reply status is 1 exactly when the operation returned true and 0 exactly when it returned false |
| Leaderboard.RankKeys | main.py:44 | the ranking lists every key of the table exactly once, in non-increasing order of `total_correct + total_wrong` |
| Leaderboard.InsertKeepsRanked | main.py:44 | inserting a key behind all keys of at least its score keeps a ranking in non-increasing score order |
| Leaderboard.InsertKeepsDistinct | main.py:44 | inserting a new key into a ranking without repeats gives a ranking without repeats |
| Leaderboard.RankedPrefix | main.py:44 | the first `n` keys of a ranking are a ranking without repeats, and no key after them scores more than any of them |
| Leaderboard.TopKeys | main.py:44 | `limit(20)`: the first min(20, table size) keys of the ranking, distinct, stored, ordered by score, and no key left out scores more than a key kept |
| Leaderboard.RowsOf | main.py:46 | the list comprehension: one row per key, in the same order, each the row of that key's record |
| Leaderboard.GetRating | main.py:42-46 | `None` exactly for an empty table; otherwise min(20, table size) rows, each the row of a distinct stored record, scores non-increasing, and no record left out scores more than any row returned |
| RatingService.RatingStore.constructor | main.py:28 | the table starts empty and satisfies the counter invariant |
| RatingService.RatingStore.InitRating | main.py:57-63 | returns true exactly when the user had no record; the new table is the one `RatingTable.InitRating` gives; counters stay non-negative |
| RatingService.RatingStore.UpdateCorrectRating | main.py:65-71 | returns true exactly when the user had a record; the new table is the one `RatingTable.UpdateCorrectRating` gives |
| RatingService.RatingStore.UpdateWrongRating | main.py:73-79 | returns true exactly when the user had a record; the new table is the one `RatingTable.UpdateWrongRating` gives |
| RatingService.RatingStore.ChangeNickname | main.py:81-87 | returns true exactly when the user had a record; the new table is the one `RatingTable.ChangeNickname` gives |
| RatingService.RatingStore.DeleteUser | main.py:89-95 | returns true exactly when the user had a record; the new table is the one `RatingTable.DeleteUser` gives |
| History.Handle | main.py:112-125 | each servicer call runs its one storage operation: it succeeds exactly when the user is absent (initialisation) or present (every other call); on success initialisation stores the default record, the answer calls add 1 to their counter, the rename sets the requested nickname and the delete removes the user; a failed call changes nothing, and no other user's record changes |
| History.ReplyStatus | main.py:112-134 | the status of a mutating call's reply is 0 or 1, and 1 exactly when the storage operation it delegates to succeeded |
| History.ReplyStatusMeansPresence | main.py:112-134 | a reply carries 1 exactly when the call could act on the user and 0 exactly when it could not, and a 0 reply left the table unchanged |
| History.RunKeepsCountersNonNegative | main.py:57-79 | counters start at 0 and only grow by 1, so every table reachable by calls has non-negative counters |
| History.RunLeavesOtherUsers | main.py:57-95 | calls about other users neither create, delete nor change a user's record |
| History.RunCounters | main.py:65-79 | while a user is not deleted, their record stays and each counter grows by exactly the number of matching answer calls, so counters never decrease |
| History.InitThenAnswers | main.py:57-79 | after initialising a new user, `n` correct and `m` wrong answer calls and no deletion, the lookup finds counters exactly `n` and `m` |
| History.InitTwice | main.py:57-63 | a second initialisation of the same user fails and changes nothing |

## Left out

- The SQLAlchemy engine, `sessionmaker`, `session_scope` (commit, rollback, close) and the SQLite file: foreign library and I/O; every operation is one atomic step on the whole table, so a rolled-back transaction is not modelled.
- The surrogate `id` column: assigned by the database and read by no operation.
- The nullable `user_id`: every entry point takes an integer, so keys are integers.
- `RatingServicer.RatingUser`, `RatingServicer.RatingTop`, the protobuf messages, `serve()` and the `__main__` block: transport code. `RatingTop` would fail on the `None` that `get_rating` gives for an empty table; that is framework behaviour and is not specified.
- The ten-worker thread pool and the non-atomic check-then-insert in `init_rating`: concurrency; the model is sequential.
- Leaderboard.GetRating: states only the non-increasing score order and the top-20 property, not the order among equal scores, which the store leaves undefined; the model's ranking picks one.
- Counter width: counters are unbounded integers; the overflow of SQLite's 64-bit integers is not modelled.
