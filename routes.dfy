/**
 The voting routes (server/routes.ts) over the database: the deputy list
 served highest vote count first, a user's vote record with its zero-value
 default, and the vote-casting handler's read-check-write over the vote
 records and the deputy counters.
 */
module Routes {
  import opened Schema
  import opened Tally
  import opened Ordering

  /** `req.user?.id` is falsy when nobody is logged in and also when the user's id is 0. */
  predicate Authenticated(sessionUser: Option<int>)
  {
    sessionUser.Some? && sessionUser.value != 0
  }

  /** The record returned by the `user_votes` query for this user, if any. */
  function StoredVotes(userVotes: map<int, UserVote>, userId: int): Option<UserVote>
  {
    if userId in userVotes then Some(userVotes[userId]) else None
  }

  /** The deputies already on the record; none when there is no record. */
  function Listed(existing: Option<UserVote>): seq<string>
  {
    if existing.None? then [] else existing.value.votedDeputies
  }

  datatype Rejection = AllVotesUsed | AlreadyVoted | DeputyNotFound

  /** What the handler does with the user's vote record. */
  datatype Verdict =
    | Insert(votedDeputies: seq<string>, hasVoted: bool)
    | Update(votedDeputies: seq<string>, hasVoted: bool)
    | Reject(reason: Rejection)

  /** A record as the voting routes expose it; the zero-value default has no row id. */
  datatype VoteView = VoteView(id: Option<int>, userId: int, hasVoted: bool, votedDeputies: seq<string>)

  /** The answer of a route: its status code and body. */
  datatype Response =
    | Unauthorized
    | BadRequest(message: string)
    | NotFound
    | VotesJson(view: VoteView)
    | Accepted(broadcast: seq<Deputy>)
  {
    function Status(): int
    {
      match this
      case Unauthorized => 401
      case BadRequest(_) => 400
      case NotFound => 404
      case VotesJson(_) => 200
      case Accepted(_) => 200
    }
  }

  /** The answer to a refused vote: 400 with a message for the two limits, 404 for an unknown deputy. */
  function Refusal(reason: Rejection): (r: Response)
    ensures r.Status() == (if reason == DeputyNotFound then 404 else 400)
    ensures reason != DeputyNotFound ==> r.BadRequest? && |r.message| > 0
  {
    match reason
    case AllVotesUsed => BadRequest("Jūs jau esat izmantojis visas 5 balsis")
    case AlreadyVoted => BadRequest("Jūs jau esat nobalsojis par šo deputātu")
    case DeputyNotFound => NotFound
  }

  function ViewOf(r: UserVote): VoteView
  {
    VoteView(Some(r.id), r.userId, r.hasVoted, r.votedDeputies)
  }

  /**
   The decision of the vote handler, checks in the handler's order: with no
   record a new one is started whatever the deputy; a full list is refused
   before a repeated deputy is; otherwise the deputy is appended, and the
   user counts as done once the list reaches the limit.
   */
  function Decide(existing: Option<UserVote>, deputyId: string): (v: Verdict)
    ensures v.Insert? <==> existing.None?
    ensures v == Reject(AllVotesUsed) <==> existing.Some? && |Listed(existing)| >= MaxVotes
    ensures v == Reject(AlreadyVoted)
            <==> existing.Some? && |Listed(existing)| < MaxVotes && deputyId in Listed(existing)
    ensures v.Reject? ==> v.reason != DeputyNotFound
    ensures !v.Reject? ==> v.votedDeputies == Listed(existing) + [deputyId]
    ensures !v.Reject? ==> (v.hasVoted <==> |v.votedDeputies| >= MaxVotes)
  {
    if existing.None? then
      Insert([deputyId], false)
    else if |existing.value.votedDeputies| >= MaxVotes then
      Reject(AllVotesUsed)
    else if deputyId in existing.value.votedDeputies then
      Reject(AlreadyVoted)
    else
      Update(existing.value.votedDeputies + [deputyId], |existing.value.votedDeputies| + 1 >= MaxVotes)
  }

  /** A record as the vote handler leaves it: within the limit, no deputy twice, done exactly when full. */
  ghost predicate WellFormed(r: UserVote)
  {
    && |r.votedDeputies| <= MaxVotes
    && Distinct(r.votedDeputies)
    && (r.hasVoted <==> |r.votedDeputies| == MaxVotes)
  }

  /** Every record filed under its user's id, each as the vote handler leaves it. */
  ghost predicate DbRecords(userVotes: map<int, UserVote>)
  {
    forall u :: u in userVotes ==> userVotes[u].userId == u && WellFormed(userVotes[u])
  }

  /** The list a verdict writes is within the limit and free of repeats whenever the old list was. */
  lemma DecideKeepsWellFormed(existing: Option<UserVote>, deputyId: string)
    requires existing.Some? ==> WellFormed(existing.value)
    requires !Decide(existing, deputyId).Reject?
    ensures |Decide(existing, deputyId).votedDeputies| <= MaxVotes
    ensures Distinct(Decide(existing, deputyId).votedDeputies)
    ensures Decide(existing, deputyId).hasVoted <==> |Decide(existing, deputyId).votedDeputies| == MaxVotes
  {
  }

  /**
   The `user_votes` table after the insert or update the verdict calls for:
   only the user's own record changes; an insert files a new row, an update
   keeps the row's id and owner and replaces its list and flag.
   */
  function Recorded(userVotes: map<int, UserVote>, userId: int, v: Verdict, rowId: int): (r: map<int, UserVote>)
    requires !v.Reject? && (v.Update? ==> userId in userVotes)
    ensures r.Keys == userVotes.Keys + {userId}
    ensures forall u :: u in userVotes && u != userId ==> r[u] == userVotes[u]
    ensures r[userId].votedDeputies == v.votedDeputies && r[userId].hasVoted == v.hasVoted
    ensures v.Insert? ==> r[userId].id == rowId && r[userId].userId == userId
    ensures v.Update? ==> r[userId].id == userVotes[userId].id && r[userId].userId == userVotes[userId].userId
  {
    if v.Insert? then
      userVotes[userId := UserVote(rowId, userId, v.hasVoted, v.votedDeputies)]
    else
      userVotes[userId := userVotes[userId].(votedDeputies := v.votedDeputies, hasVoted := v.hasVoted)]
  }

  /** Writing the verdict's record keeps the vote-record table well formed. */
  lemma RecordedKeepsTable(userVotes: map<int, UserVote>, userId: int, deputyId: string, rowId: int)
    requires DbRecords(userVotes)
    requires !Decide(StoredVotes(userVotes, userId), deputyId).Reject?
    ensures DbRecords(Recorded(userVotes, userId, Decide(StoredVotes(userVotes, userId), deputyId), rowId))
  {
  }

  /**
   `UPDATE deputies SET votes = votes + 1 WHERE id = deputyId`: the named
   deputy, if it exists, gains one vote; every other row stays as it was.
   */
  function Bump(deputies: map<string, Deputy>, deputyId: string): (r: map<string, Deputy>)
    ensures r.Keys == deputies.Keys
    ensures forall k :: k in deputies && k != deputyId ==> r[k] == deputies[k]
    ensures deputyId in deputies ==> r[deputyId] == Counted(deputies[deputyId])
  {
    if deputyId in deputies then deputies[deputyId := Counted(deputies[deputyId])] else deputies
  }

  /** The counter update keeps the table keyed by id and raises the counter total by one, or by zero for an unknown id. */
  lemma BumpEffect(deputies: map<string, Deputy>, deputyId: string)
    ensures KeyedById(deputies) ==> KeyedById(Bump(deputies, deputyId))
    ensures VotesCast(Bump(deputies, deputyId)) == VotesCast(deputies) + (if deputyId in deputies then 1 else 0)
  {
    if deputyId in deputies {
      TotalUpdate(deputies, VotesOf, deputyId, Counted(deputies[deputyId]));
    }
  }

  /** An accepted vote lengthens the user's list, and so the list total, by exactly one. */
  lemma RecordedEffect(userVotes: map<int, UserVote>, userId: int, deputyId: string, rowId: int)
    requires !Decide(StoredVotes(userVotes, userId), deputyId).Reject?
    ensures VotesListed(Recorded(userVotes, userId, Decide(StoredVotes(userVotes, userId), deputyId), rowId))
            == VotesListed(userVotes) + 1
  {
    var v := Decide(StoredVotes(userVotes, userId), deputyId);
    var r := if v.Insert? then UserVote(rowId, userId, v.hasVoted, v.votedDeputies)
             else userVotes[userId].(votedDeputies := v.votedDeputies, hasVoted := v.hasVoted);
    TotalUpdate(userVotes, ListedOf, userId, r);
  }

  /** A vote for a stored deputy keeps the counters and the lists in step. */
  lemma KnownDeputyKeepsTally(deputies: map<string, Deputy>, userVotes: map<int, UserVote>,
                              userId: int, deputyId: string, rowId: int)
    requires Consistent(deputies, userVotes)
    requires !Decide(StoredVotes(userVotes, userId), deputyId).Reject?
    requires deputyId in deputies
    ensures Consistent(Bump(deputies, deputyId),
                       Recorded(userVotes, userId, Decide(StoredVotes(userVotes, userId), deputyId), rowId))
  {
    BumpEffect(deputies, deputyId);
    RecordedEffect(userVotes, userId, deputyId, rowId);
  }

  /**
   The handler does not check that the deputy exists: a vote for an unknown
   id is recorded on the user's list while no counter moves, so the counters
   fall one behind the lists.
   */
  lemma UnknownDeputyBreaksTally(deputies: map<string, Deputy>, userVotes: map<int, UserVote>,
                                 userId: int, deputyId: string, rowId: int)
    requires Consistent(deputies, userVotes)
    requires !Decide(StoredVotes(userVotes, userId), deputyId).Reject?
    requires deputyId !in deputies
    ensures VotesCast(Bump(deputies, deputyId)) + 1
            == VotesListed(Recorded(userVotes, userId, Decide(StoredVotes(userVotes, userId), deputyId), rowId))
  {
    BumpEffect(deputies, deputyId);
    RecordedEffect(userVotes, userId, deputyId, rowId);
  }

  /**
   The decision with the missing existence check added last, after the
   limit and repeat checks: a vote for an unknown deputy is refused.
   */
  function DecideChecked(existing: Option<UserVote>, deputyId: string, deputies: map<string, Deputy>): (v: Verdict)
    ensures Decide(existing, deputyId).Reject? ==> v == Decide(existing, deputyId)
    ensures v == Reject(DeputyNotFound) <==> !Decide(existing, deputyId).Reject? && deputyId !in deputies
    ensures !v.Reject? ==> deputyId in deputies && v == Decide(existing, deputyId)
  {
    var v := Decide(existing, deputyId);
    if !v.Reject? && deputyId !in deputies then Reject(DeputyNotFound) else v
  }

  /** With the existence check, every accepted vote keeps the counters and the lists in step. */
  lemma CheckedVoteKeepsTally(deputies: map<string, Deputy>, userVotes: map<int, UserVote>,
                              userId: int, deputyId: string, rowId: int)
    requires Consistent(deputies, userVotes)
    requires !DecideChecked(StoredVotes(userVotes, userId), deputyId, deputies).Reject?
    ensures Consistent(Bump(deputies, deputyId),
                       Recorded(userVotes, userId, DecideChecked(StoredVotes(userVotes, userId), deputyId, deputies), rowId))
  {
    KnownDeputyKeepsTally(deputies, userVotes, userId, deputyId, rowId);
  }

  /**
   `rows` lists the table `m`: every row is a stored deputy, every stored
   deputy occurs, and there are as many rows as deputies (so each occurs once).
   */
  ghost predicate IsListing(rows: seq<Deputy>, m: map<string, Deputy>)
  {
    && |rows| == |m|
    && (forall i :: 0 <= i < |rows| ==> rows[i].id in m && m[rows[i].id] == rows[i])
    && (forall k :: k in m ==> m[k] in rows)
  }

  /** A permutation of a listing is a listing. */
  lemma ListingPermutation(rows: seq<Deputy>, perm: seq<Deputy>, m: map<string, Deputy>)
    requires IsListing(rows, m) && multiset(perm) == multiset(rows)
    ensures IsListing(perm, m)
  {
    assert |perm| == |multiset(perm)| == |multiset(rows)| == |rows|;
    forall i | 0 <= i < |perm|
      ensures perm[i].id in m && m[perm[i].id] == perm[i]
    {
      assert perm[i] in multiset(rows);
    }
    forall k | k in m
      ensures m[k] in perm
    {
      assert m[k] in multiset(perm);
    }
  }

  /** `rows` lists exactly the deputies of `m` filed under the keys in `done`. */
  ghost predicate Scanned(rows: seq<Deputy>, m: map<string, Deputy>, done: set<string>)
  {
    && |rows| == |done|
    && (forall i :: 0 <= i < |rows| ==> rows[i].id in done && rows[i].id in m && m[rows[i].id] == rows[i])
    && (forall k :: k in done ==> k in m && m[k] in rows)
  }

  /** Reading one more deputy extends a scan. */
  lemma ScanStep(rows: seq<Deputy>, m: map<string, Deputy>, done: set<string>, k: string)
    requires KeyedById(m) && Scanned(rows, m, done) && k in m && k !in done
    ensures Scanned(rows + [m[k]], m, done + {k})
  {
  }

  /** A scan of the deputy table, in whatever order the database returns its rows. */
  method TableRows(m: map<string, Deputy>) returns (rows: seq<Deputy>)
    requires KeyedById(m)
    ensures IsListing(rows, m)
  {
    rows := [];
    var left := m.Keys;
    ghost var done: set<string> := {};
    while left != {}
      invariant left <= m.Keys && done == m.Keys - left
      invariant Scanned(rows, m, done)
      decreases left
    {
      var k :| k in left;
      ScanStep(rows, m, done, k);
      rows := rows + [m[k]];
      left := left - {k};
      done := done + {k};
    }
  }

  /** The query `findMany` ordered by `votes` descending: the scanned rows, sorted. */
  method SortedDeputies(m: map<string, Deputy>) returns (r: seq<Deputy>)
    requires KeyedById(m)
    ensures IsListing(r, m)
    ensures NonIncreasing(r)
  {
    var rows := TableRows(m);
    r := SortByVotes(rows);
    SortByVotesCorrect(rows);
    ListingPermutation(rows, r, m);
  }

  class Database {
    var users: map<int, User>
    var deputies: map<string, Deputy>
    var userVotes: map<int, UserVote>
    /** The serial that numbers new `user_votes` rows. */
    var nextRowId: int

    ghost predicate Valid()
      reads this
    {
      UsersValid() && DeputiesValid() && RecordsValid()
    }

    /** Every user is filed under its primary key. */
    ghost predicate UsersValid()
      reads this`users
    {
      forall k :: k in users ==> users[k].id == k
    }

    ghost predicate DeputiesValid()
      reads this`deputies
    {
      KeyedById(deputies)
    }

    /** One record per user, each as the vote handler leaves it. */
    ghost predicate RecordsValid()
      reads this`userVotes
    {
      DbRecords(userVotes)
    }

    /** The deputy counters agree with the vote lists. */
    ghost predicate Tallied()
      reads this
    {
      Consistent(deputies, userVotes)
    }

    constructor (registered: map<int, User>, seeded: map<string, Deputy>)
      requires forall k :: k in registered ==> registered[k].id == k
      requires KeyedById(seeded)
      ensures Valid()
      ensures users == registered && deputies == seeded && userVotes == map[] && nextRowId == 1
    {
      users, deputies, userVotes, nextRowId := registered, seeded, map[], 1;
    }

    /** `GET /api/deputies`: every deputy once, highest vote count first. */
    method ListDeputies() returns (r: seq<Deputy>)
      requires Valid()
      ensures IsListing(r, deputies)
      ensures NonIncreasing(r)
    {
      r := SortedDeputies(deputies);
    }

    /**
     `GET /api/votes`: refused without a logged-in user; otherwise the user's
     record, or the zero-value record when the user has none.
     */
    method GetVotes(sessionUser: Option<int>) returns (resp: Response)
      requires Valid()
      ensures !Authenticated(sessionUser) <==> resp == Unauthorized
      ensures Authenticated(sessionUser) ==> resp.VotesJson? && resp.view.userId == sessionUser.value
      ensures Authenticated(sessionUser) && sessionUser.value in userVotes
              ==> resp.view == ViewOf(userVotes[sessionUser.value])
      ensures Authenticated(sessionUser) && sessionUser.value !in userVotes
              ==> resp.view == VoteView(None, sessionUser.value, false, [])
      ensures resp.VotesJson? ==> |resp.view.votedDeputies| <= MaxVotes
    {
      if !Authenticated(sessionUser) {
        return Unauthorized;
      }
      var userId := sessionUser.value;
      var votes := StoredVotes(userVotes, userId);
      resp := VotesJson(if votes.Some? then ViewOf(votes.value) else VoteView(None, userId, false, []));
    }

    /**
     The writes of an accepted vote: insert or update the user's record, raise
     the deputy's counter, then read back the deputy list that is broadcast.
     */
    method Commit(userId: int, deputyId: string, v: Verdict) returns (broadcast: seq<Deputy>)
      requires Valid()
      requires !v.Reject? && v == Decide(StoredVotes(userVotes, userId), deputyId)
      modifies this
      ensures Valid()
      ensures userVotes == Recorded(old(userVotes), userId, v, old(nextRowId))
      ensures deputies == Bump(old(deputies), deputyId)
      ensures nextRowId == old(nextRowId) + (if v.Insert? then 1 else 0)
      ensures users == old(users)
      ensures IsListing(broadcast, deputies) && NonIncreasing(broadcast)
    {
      RecordedKeepsTable(userVotes, userId, deputyId, nextRowId);
      BumpEffect(deputies, deputyId);
      var records, table := Recorded(userVotes, userId, v, nextRowId), Bump(deputies, deputyId);
      broadcast := SortedDeputies(table);
      userVotes, deputies := records, table;
      if v.Insert? {
        nextRowId := nextRowId + 1;
      }
    }

    /**
     `POST /api/vote/:deputyId`, as written: refused without a logged-in
     user; refused with 400 when the decision refuses; otherwise the record is
     written and the counter of the deputy with that id, if there is one, is
     raised. The counters stay in step with the lists only when the deputy
     exists.
     */
    method CastVote(sessionUser: Option<int>, deputyId: string) returns (resp: Response)
      requires Valid()
      modifies this
      ensures Valid() && users == old(users)
      ensures !Authenticated(sessionUser) ==> resp == Unauthorized && unchanged(this)
      ensures Authenticated(sessionUser) ==>
                var v := Decide(StoredVotes(old(userVotes), sessionUser.value), deputyId);
                if v.Reject? then
                  resp == Refusal(v.reason) && resp.Status() == 400 && unchanged(this)
                else
                  && userVotes == Recorded(old(userVotes), sessionUser.value, v, old(nextRowId))
                  && deputies == Bump(old(deputies), deputyId)
                  && nextRowId == old(nextRowId) + (if v.Insert? then 1 else 0)
                  && resp.Accepted? && IsListing(resp.broadcast, deputies) && NonIncreasing(resp.broadcast)
      ensures old(Tallied()) && deputyId in old(deputies) ==> Tallied()
    {
      if !Authenticated(sessionUser) {
        return Unauthorized;
      }
      var userId := sessionUser.value;
      var v := Decide(StoredVotes(userVotes, userId), deputyId);
      if v.Reject? {
        return Refusal(v.reason);
      }
      if deputyId in deputies && Tallied() {
        KnownDeputyKeepsTally(deputies, userVotes, userId, deputyId, nextRowId);
      }
      var broadcast := Commit(userId, deputyId, v);
      resp := Accepted(broadcast);
    }

    /**
     The same handler with the existence check added: a vote for an unknown
     deputy is refused with 404, and every accepted vote keeps the counters
     in step with the lists.
     */
    method CastVoteChecked(sessionUser: Option<int>, deputyId: string) returns (resp: Response)
      requires Valid()
      modifies this
      ensures Valid() && users == old(users)
      ensures !Authenticated(sessionUser) ==> resp == Unauthorized && unchanged(this)
      ensures Authenticated(sessionUser) ==>
                var v := DecideChecked(StoredVotes(old(userVotes), sessionUser.value), deputyId, old(deputies));
                if v.Reject? then
                  resp == Refusal(v.reason) && unchanged(this)
                else
                  && userVotes == Recorded(old(userVotes), sessionUser.value, v, old(nextRowId))
                  && deputies == Bump(old(deputies), deputyId)
                  && nextRowId == old(nextRowId) + (if v.Insert? then 1 else 0)
                  && resp.Accepted? && IsListing(resp.broadcast, deputies) && NonIncreasing(resp.broadcast)
      ensures old(Tallied()) ==> Tallied()
    {
      if !Authenticated(sessionUser) {
        return Unauthorized;
      }
      var userId := sessionUser.value;
      var v := DecideChecked(StoredVotes(userVotes, userId), deputyId, deputies);
      if v.Reject? {
        return Refusal(v.reason);
      }
      if Tallied() {
        CheckedVoteKeepsTally(deputies, userVotes, userId, deputyId, nextRowId);
      }
      var broadcast := Commit(userId, deputyId, v);
      resp := Accepted(broadcast);
    }
  }
}
