/**
 Sums over the tables: the total of all deputy counters and the total of all
 vote-list lengths. The application's consistency requirement is that the two
 agree.
 */
module Tally {
  import opened Schema

  /** The sum of `f` over the values of a finite map. */
  ghost function Total<K, V>(m: map<K, V>, f: V -> int): int
    decreases |m|
  {
    if |m| == 0 then 0
    else
      var k :| k in m;
      assert (m - {k}).Keys == m.Keys - {k};
      f(m[k]) + Total(m - {k}, f)
  }

  lemma RemoveCommutes<K, V>(m: map<K, V>, a: K, b: K)
    ensures m - {a} - {b} == m - {b} - {a}
  {
  }

  lemma RemoveShrinks<K, V>(m: map<K, V>, a: K)
    requires a in m
    ensures |m - {a}| == |m| - 1
  {
  }

  /** Any entry may be taken out first. */
  lemma {:induction false} TotalRemove<K, V>(m: map<K, V>, f: V -> int, k: K)
    requires k in m
    ensures Total(m, f) == f(m[k]) + Total(m - {k}, f)
    decreases |m|
  {
    assert k in m.Keys;
    assert |m.Keys| != 0;
    assert |m| != 0;
    var k' :| k' in m && Total(m, f) == f(m[k']) + Total(m - {k'}, f);
    if k' != k {
      RemoveShrinks(m, k);
      RemoveShrinks(m, k');
      TotalRemove(m - {k'}, f, k);
      TotalRemove(m - {k}, f, k');
      RemoveCommutes(m, k, k');
    }
  }

  /** Overwriting one entry changes the total by the difference. */
  lemma {:induction false} TotalUpdate<K, V>(m: map<K, V>, f: V -> int, k: K, v: V)
    ensures Total(m[k := v], f) == Total(m, f) - (if k in m then f(m[k]) else 0) + f(v)
  {
    TotalRemove(m[k := v], f, k);
    if k in m {
      TotalRemove(m, f, k);
      assert m[k := v] - {k} == m - {k};
    } else {
      assert m[k := v] - {k} == m;
    }
  }

  /** A map on whose values `f` is zero has total zero. */
  lemma {:induction false} TotalZero<K, V>(m: map<K, V>, f: V -> int)
    requires forall k :: k in m ==> f(m[k]) == 0
    ensures Total(m, f) == 0
    decreases |m|
  {
    if |m| != 0 {
      var k :| k in m;
      TotalRemove(m, f, k);
      RemoveShrinks(m, k);
      TotalZero(m - {k}, f);
    }
  }

  function VotesOf(d: Deputy): int
  {
    d.votes
  }

  function ListedOf(r: UserVote): int
  {
    |r.votedDeputies|
  }

  /** The sum of all deputy counters. */
  ghost function VotesCast(deputies: map<string, Deputy>): int
  {
    Total(deputies, VotesOf)
  }

  /** The number of entries in all vote lists together. */
  ghost function VotesListed(userVotes: map<int, UserVote>): int
  {
    Total(userVotes, ListedOf)
  }

  /** The deputy counters sum to the number of entries in all vote lists. */
  ghost predicate Consistent(deputies: map<string, Deputy>, userVotes: map<int, UserVote>)
  {
    VotesCast(deputies) == VotesListed(userVotes)
  }
}
