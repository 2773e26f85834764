/**
 Ordering deputies by vote count, highest first: the order in which the
 deputy list is served.
 */
module Ordering {
  import opened Schema

  /** No deputy has more votes than one listed before it. */
  ghost predicate NonIncreasing(s: seq<Deputy>)
  {
    forall i, j :: 0 <= i < j < |s| ==> s[i].votes >= s[j].votes
  }

  /** `d` placed in front of the first entry that has no more votes than it. */
  function InsertByVotes(d: Deputy, s: seq<Deputy>): seq<Deputy>
  {
    if s == [] || s[0].votes <= d.votes then [d] + s
    else [s[0]] + InsertByVotes(d, s[1..])
  }

  /** Insertion sort, highest vote count first. */
  function SortByVotes(s: seq<Deputy>): seq<Deputy>
  {
    if s == [] then [] else InsertByVotes(s[0], SortByVotes(s[1..]))
  }

  /** Insertion adds exactly `d`. */
  lemma {:induction false} InsertByVotesCount(d: Deputy, s: seq<Deputy>)
    ensures multiset(InsertByVotes(d, s)) == multiset(s) + multiset{d}
  {
    if s != [] && s[0].votes > d.votes {
      InsertByVotesCount(d, s[1..]);
      assert s == [s[0]] + s[1..];
    }
  }

  /** The head after insertion is `d` or the old head. */
  lemma {:induction false} InsertByVotesHead(d: Deputy, s: seq<Deputy>)
    ensures |InsertByVotes(d, s)| == |s| + 1
    ensures InsertByVotes(d, s)[0] == d || InsertByVotes(d, s)[0] == s[0]
  {
    if s != [] && s[0].votes > d.votes {
      InsertByVotesHead(d, s[1..]);
    }
  }

  /** Inserting into an ordered list keeps it ordered. */
  lemma {:induction false} InsertByVotesCorrect(d: Deputy, s: seq<Deputy>)
    requires NonIncreasing(s)
    ensures NonIncreasing(InsertByVotes(d, s))
  {
    if s != [] && s[0].votes > d.votes {
      var tail := InsertByVotes(d, s[1..]);
      InsertByVotesCorrect(d, s[1..]);
      InsertByVotesHead(d, s[1..]);
      assert tail[0].votes <= s[0].votes;
      forall i, j | 0 <= i < j < |[s[0]] + tail|
        ensures ([s[0]] + tail)[i].votes >= ([s[0]] + tail)[j].votes
      {
        if i == 0 {
          assert ([s[0]] + tail)[j] == tail[j - 1];
          assert tail[0].votes >= tail[j - 1].votes;
        }
      }
    }
  }

  /** The sorted list is ordered by votes, highest first, and is a permutation of the input. */
  lemma {:induction false} SortByVotesCorrect(s: seq<Deputy>)
    ensures NonIncreasing(SortByVotes(s))
    ensures multiset(SortByVotes(s)) == multiset(s)
  {
    if s != [] {
      SortByVotesCorrect(s[1..]);
      InsertByVotesCorrect(s[0], SortByVotes(s[1..]));
      InsertByVotesCount(s[0], SortByVotes(s[1..]));
      assert s == [s[0]] + s[1..];
    }
  }
}
