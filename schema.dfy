/**
 The three kinds of record the voting application stores (users, deputies and
 per-user vote records), as values, with the facts every part of the model
 shares about them.
 */
module Schema {

  datatype Option<T> = None | Some(value: T)

  /** The number of votes each user may cast. */
  const MaxVotes: nat := 5

  /** A registered account; `password` is whatever (hashed) text the caller stores. */
  datatype User = User(id: int, username: string, password: string)

  /** What registration hands to the store: a user that has no id yet. */
  datatype InsertUser = InsertUser(username: string, password: string)

  /** A candidate; `votes` is the counter that every accepted vote raises. */
  datatype Deputy = Deputy(id: string, name: string, faction: string, votes: int)

  /** The vote record of one user: the deputies voted for, in voting order. */
  datatype UserVote = UserVote(id: int, userId: int, hasVoted: bool, votedDeputies: seq<string>)

  /** A deputy with its counter raised by one, as every accepted vote does. */
  function Counted(d: Deputy): (r: Deputy)
    ensures r.id == d.id && r.name == d.name && r.faction == d.faction
    ensures r.votes == d.votes + 1
  {
    d.(votes := d.votes + 1)
  }

  /** Every deputy is filed under its own id (the table's primary key). */
  ghost predicate KeyedById(deputies: map<string, Deputy>)
  {
    forall k :: k in deputies ==> deputies[k].id == k
  }

  /** No deputy id occurs twice in `s`. */
  ghost predicate Distinct(s: seq<string>)
  {
    forall i, j :: 0 <= i < j < |s| ==> s[i] != s[j]
  }
}
