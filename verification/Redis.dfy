/** Redis keys with a time to live. A key whose deadline has been reached no longer exists. */
module Redis {
  datatype Key<T> = Absent | Present(value: T, deadline: int) {
    predicate LiveAt(now: int) {
      Present? && now < deadline
    }

    /** What a GET at time `now` sees, with `default` standing for nil. */
    function ReadAt(now: int, default: T): T {
      if LiveAt(now) then value else default
    }
  }

  /** ZREMRANGEBYSCORE -inf now: members whose score has been reached are dropped. */
  function Prune<M(!new)>(members: map<M, int>, now: int): (kept: map<M, int>)
    ensures kept.Keys <= members.Keys
    ensures forall m :: m in kept <==> m in members && now < members[m]
    ensures forall m :: m in kept ==> kept[m] == members[m]
  {
    map m | m in members && now < members[m] :: members[m]
  }
}
