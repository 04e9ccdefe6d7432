/** The reaction ledgers of the Mongoose half: a `Like` record per post and a
    `CommentLike` record per comment or reply (models/like.js,
    models/commentLike.js), each holding the ids of the users who liked and
    a `count`. Likes and unlikes check membership first, then `$push` or
    `$pull` the user and `$inc` the count by one either way. */
module Ledgers {
  import opened Seqs

  datatype Ledger = Ledger(users: seq<int>, count: int)

  /** A new ledger: users `[]`, count 0. */
  const Empty := Ledger([], 0)

  /** The ledger invariant: nobody twice, and `count` is the number of users. */
  predicate Consistent(l: Ledger)
  {
    NoDup(l.users) && l.count == |l.users|
  }

  /** `$push: { users: u }, $inc: { count: 1 }`. */
  function Push(l: Ledger, u: int): (r: Ledger)
    ensures multiset(r.users) == multiset(l.users) + multiset{u}
    ensures r.count == l.count + 1
    ensures Consistent(l) && u !in l.users ==> Consistent(r)
  {
    Ledger(l.users + [u], l.count + 1)
  }

  /** `$pull: { users: u }, $inc: { count: -1 }`. */
  function Pull(l: Ledger, u: int): (r: Ledger)
    ensures u !in r.users
    ensures forall v :: v != u ==> (v in r.users <==> v in l.users)
    ensures r.count == l.count - 1
    ensures Consistent(l) && u in l.users ==> Consistent(r)
  {
    RemoveAllShape(l.users, u);
    RemoveAllKeepsOthers(l.users, u);
    PullOnce(l, u);
    Ledger(RemoveAll(l.users, u), l.count - 1)
  }

  /** Pulling a user who occurs once takes exactly one entry away. */
  lemma PullOnce(l: Ledger, u: int)
    ensures Consistent(l) && u in l.users ==>
      NoDup(RemoveAll(l.users, u)) && |RemoveAll(l.users, u)| == |l.users| - 1
  {
    if Consistent(l) && u in l.users {
      RemoveAllKeepsNoDup(l.users, u);
      NoDupCountAtMostOne(l.users, u);
      RemoveAllShape(l.users, u);
    }
  }

  /** A like or an unlike call on a live record. */
  datatype Toggle = Like(user: int) | Unlike(user: int)

  /** The membership check, then the update; a refused call changes nothing. */
  function Apply(l: Ledger, t: Toggle): (r: Ledger)
    ensures t.Like? ==> t.user in r.users
    ensures t.Unlike? ==> t.user !in r.users
    ensures t.Like? && t.user in l.users ==> r == l
    ensures t.Unlike? && t.user !in l.users ==> r == l
  {
    match t
    case Like(u) => if u in l.users then l else Push(l, u)
    case Unlike(u) => if u !in l.users then l else Pull(l, u)
  }

  /** A sequence of calls, applied in order. */
  function Replay(l: Ledger, ts: seq<Toggle>): Ledger
    decreases |ts|
  {
    if ts == [] then l else Replay(Apply(l, ts[0]), ts[1..])
  }

  /** One call keeps the ledger invariant. */
  lemma ApplyKeepsConsistent(l: Ledger, t: Toggle)
    requires Consistent(l)
    ensures Consistent(Apply(l, t))
  {
  }

  /** Any sequence of like and unlike calls keeps the ledger invariant: no
      duplicate users and `count == |users|`. */
  lemma {:induction false} ReplayKeepsConsistent(l: Ledger, ts: seq<Toggle>)
    requires Consistent(l)
    ensures Consistent(Replay(l, ts))
    decreases |ts|
  {
    if ts != [] {
      ApplyKeepsConsistent(l, ts[0]);
      ReplayKeepsConsistent(Apply(l, ts[0]), ts[1..]);
    }
  }

  /** Starting from a new ledger, the count is always the number of distinct likers. */
  lemma FromEmptyCountsLikers(ts: seq<Toggle>)
    ensures Replay(Empty, ts).count == |Replay(Empty, ts).users|
    ensures NoDup(Replay(Empty, ts).users)
  {
    ReplayKeepsConsistent(Empty, ts);
  }

  /** A like followed by an unlike of the same user restores the ledger. */
  lemma LikeThenUnlikeRestores(l: Ledger, u: int)
    requires u !in l.users
    ensures Apply(Apply(l, Like(u)), Unlike(u)) == l
  {
    PushThenPull(l.users, u);
  }

  /** Liking twice is refused the second time: the ledger is as after one like. */
  lemma SecondLikeRefused(l: Ledger, u: int)
    ensures Apply(Apply(l, Like(u)), Like(u)) == Apply(l, Like(u))
  {
  }
}
