/**
 The rating table as stored state. Each mutating operation of the service
 runs as one atomic method that looks the record up by `user_id` and changes
 it in place; the methods are specified by the functions of `RatingTable`.
 */
module RatingService {
  import opened RatingTable

  class RatingStore {
    /** The `rating` table, keyed by `user_id`. */
    var table: Table

    /** Counters are never negative. */
    ghost predicate Valid()
      reads this
    {
      CountersNonNegative(table)
    }

    /** The table `create_all` makes on first start: no records. */
    constructor ()
      ensures Valid() && table == map[]
    {
      table := map[];
    }

    /** `init_rating` */
    method InitRating(userId: int) returns (ok: bool)
      requires Valid()
      modifies this
      ensures Valid()
      ensures ok <==> userId !in old(table)
      ensures Update(table, ok) == RatingTable.InitRating(old(table), userId)
    {
      if userId in table {
        return false;
      }
      table := table[userId := Rating(DefaultNickname, 0, 0)];
      return true;
    }

    /** `update_correct_rating` */
    method UpdateCorrectRating(userId: int) returns (ok: bool)
      requires Valid()
      modifies this
      ensures Valid()
      ensures ok <==> userId in old(table)
      ensures Update(table, ok) == RatingTable.UpdateCorrectRating(old(table), userId)
    {
      if userId in table {
        var w := table[userId];
        table := table[userId := w.(totalCorrect := w.totalCorrect + 1)];
        return true;
      }
      return false;
    }

    /** `update_wrong_rating` */
    method UpdateWrongRating(userId: int) returns (ok: bool)
      requires Valid()
      modifies this
      ensures Valid()
      ensures ok <==> userId in old(table)
      ensures Update(table, ok) == RatingTable.UpdateWrongRating(old(table), userId)
    {
      if userId in table {
        var w := table[userId];
        table := table[userId := w.(totalWrong := w.totalWrong + 1)];
        return true;
      }
      return false;
    }

    /** `change_nickname` */
    method ChangeNickname(userId: int, nickname: string) returns (ok: bool)
      requires Valid()
      modifies this
      ensures Valid()
      ensures ok <==> userId in old(table)
      ensures Update(table, ok) == RatingTable.ChangeNickname(old(table), userId, nickname)
    {
      if userId in table {
        table := table[userId := table[userId].(nickname := nickname)];
        return true;
      }
      return false;
    }

    /** `delete_user` */
    method DeleteUser(userId: int) returns (ok: bool)
      requires Valid()
      modifies this
      ensures Valid()
      ensures ok <==> userId in old(table)
      ensures Update(table, ok) == RatingTable.DeleteUser(old(table), userId)
    {
      if userId in table {
        table := table - {userId};
        return true;
      }
      return false;
    }
  }
}
