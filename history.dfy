/**
 The mutating remote calls of `RatingServicer` and what a sequence of them
 does to the table: each call runs exactly one storage operation, and its
 reply status is 1 exactly when that operation succeeded.
 */
module History {
  import RT = RatingTable

  /** One mutating request, named after the servicer method that handles it. */
  datatype Request =
    | InitRating(userId: int)
    | UpdateCorrect(userId: int)
    | UpdateWrong(userId: int)
    | DeleteUser(userId: int)
    | ChangeNickname(userId: int, nick: string)

  /** The storage operation each servicer method delegates to. */
  function Handle(t: RT.Table, req: Request): (u: RT.Update)
    ensures u.ok <==> if req.InitRating? then req.userId !in t else req.userId in t
    ensures forall k :: k != req.userId ==> (k in u.table <==> k in t)
    ensures forall k :: k != req.userId && k in t ==> u.table[k] == t[k]
    ensures !u.ok ==> u.table == t
    ensures req.InitRating? && u.ok ==>
      req.userId in u.table && u.table[req.userId] == RT.Rating(RT.DefaultNickname, 0, 0)
    ensures req.UpdateCorrect? && u.ok ==>
      req.userId in u.table && u.table[req.userId] == t[req.userId].(totalCorrect := t[req.userId].totalCorrect + 1)
    ensures req.UpdateWrong? && u.ok ==>
      req.userId in u.table && u.table[req.userId] == t[req.userId].(totalWrong := t[req.userId].totalWrong + 1)
    ensures req.ChangeNickname? && u.ok ==>
      req.userId in u.table && u.table[req.userId] == t[req.userId].(nickname := req.nick)
    ensures req.DeleteUser? ==> req.userId !in u.table
  {
    match req
    case InitRating(k) => RT.InitRating(t, k)
    case UpdateCorrect(k) => RT.UpdateCorrectRating(t, k)
    case UpdateWrong(k) => RT.UpdateWrongRating(t, k)
    case DeleteUser(k) => RT.DeleteUser(t, k)
    case ChangeNickname(k, nick) => RT.ChangeNickname(t, k, nick)
  }

  /** The status field of the reply to `req`. */
  function ReplyStatus(t: RT.Table, req: Request): (status: int)
    ensures status == 0 || status == 1
    ensures status == 1 <==> Handle(t, req).ok
  {
    RT.UpdateRatingStatus(Handle(t, req).ok)
  }

  /**
   A reply carries 1 exactly when the request could act: an initialisation of
   a user with no record, or any other request on a user that has one.
   */
  lemma ReplyStatusMeansPresence(t: RT.Table, req: Request)
    ensures ReplyStatus(t, req) == 1 <==> (if req.InitRating? then req.userId !in t else req.userId in t)
    ensures ReplyStatus(t, req) == 0 <==> (if req.InitRating? then req.userId in t else req.userId !in t)
    ensures ReplyStatus(t, req) == 0 ==> Handle(t, req).table == t
  {
  }

  /** The table after handling `reqs` in order. */
  function Run(t: RT.Table, reqs: seq<Request>): RT.Table
    decreases |reqs|
  {
    if reqs == [] then t else Run(Handle(t, reqs[0]).table, reqs[1..])
  }

  /** How many requests in `reqs` add a correct answer for `k`. */
  function CorrectCount(reqs: seq<Request>, k: int): nat
    decreases |reqs|
  {
    if reqs == [] then 0
    else (if reqs[0] == UpdateCorrect(k) then 1 else 0) + CorrectCount(reqs[1..], k)
  }

  /** How many requests in `reqs` add a wrong answer for `k`. */
  function WrongCount(reqs: seq<Request>, k: int): nat
    decreases |reqs|
  {
    if reqs == [] then 0
    else (if reqs[0] == UpdateWrong(k) then 1 else 0) + WrongCount(reqs[1..], k)
  }

  /** Every state reachable by requests has non-negative counters. */
  lemma {:induction false} RunKeepsCountersNonNegative(t: RT.Table, reqs: seq<Request>)
    requires RT.CountersNonNegative(t)
    ensures RT.CountersNonNegative(Run(t, reqs))
    decreases |reqs|
  {
    if reqs != [] {
      var u := Handle(t, reqs[0]);
      RunKeepsCountersNonNegative(u.table, reqs[1..]);
    }
  }

  /** Requests about other users leave the record of `k` (or its absence) alone. */
  lemma {:induction false} RunLeavesOtherUsers(t: RT.Table, reqs: seq<Request>, k: int)
    requires forall i :: 0 <= i < |reqs| ==> reqs[i].userId != k
    ensures k in Run(t, reqs) <==> k in t
    ensures k in t ==> Run(t, reqs)[k] == t[k]
    decreases |reqs|
  {
    if reqs != [] {
      RunLeavesOtherUsers(Handle(t, reqs[0]).table, reqs[1..], k);
    }
  }

  /**
   While `k` is not deleted, its record stays, and its counters grow by exactly
   the number of correct and wrong answers reported for it; so they never decrease.
   */
  lemma {:induction false} RunCounters(t: RT.Table, reqs: seq<Request>, k: int)
    requires k in t
    requires DeleteUser(k) !in reqs
    ensures k in Run(t, reqs)
    ensures Run(t, reqs)[k].totalCorrect == t[k].totalCorrect + CorrectCount(reqs, k)
    ensures Run(t, reqs)[k].totalWrong == t[k].totalWrong + WrongCount(reqs, k)
    decreases |reqs|
  {
    if reqs != [] {
      var u := Handle(t, reqs[0]);
      assert DeleteUser(k) !in reqs[1..] by {
        assert forall r :: r in reqs[1..] ==> r in reqs;
      }
      assert reqs[0] != DeleteUser(k) by {
        assert reqs[0] in reqs;
      }
      assert k in u.table;
      assert u.table[k].totalCorrect == t[k].totalCorrect + (if reqs[0] == UpdateCorrect(k) then 1 else 0);
      assert u.table[k].totalWrong == t[k].totalWrong + (if reqs[0] == UpdateWrong(k) then 1 else 0);
      RunCounters(u.table, reqs[1..], k);
    }
  }

  /**
   After initialising a user who had no record, `n` correct and `m` wrong
   answers and no deletion, the lookup finds counters exactly `n` and `m`.
   */
  lemma InitThenAnswers(t: RT.Table, k: int, reqs: seq<Request>)
    requires k !in t
    requires DeleteUser(k) !in reqs
    ensures RT.GetUserRating(Run(t, [InitRating(k)] + reqs), k).Some?
    ensures RT.GetUserRating(Run(t, [InitRating(k)] + reqs), k).value.totalCorrect == CorrectCount(reqs, k)
    ensures RT.GetUserRating(Run(t, [InitRating(k)] + reqs), k).value.totalWrong == WrongCount(reqs, k)
  {
    var t1 := RT.InitRating(t, k).table;
    assert ([InitRating(k)] + reqs)[1..] == reqs;
    assert Run(t, [InitRating(k)] + reqs) == Run(t1, reqs);
    RunCounters(t1, reqs, k);
  }

  /** A second initialisation of the same user is refused and changes nothing. */
  lemma InitTwice(t: RT.Table, k: int)
    ensures var t1 := RT.InitRating(t, k).table;
      !RT.InitRating(t1, k).ok && RT.InitRating(t1, k).table == t1
  {
  }
}
