/**
 The in-memory store (server/storage.ts): users issued from a counter,
 deputies seeded once, and one vote record per user.
 */
module Storage {
  import opened Schema
  import opened Tally

  /** Lower-casing of one character, for the letters A to Z. */
  function LowerChar(c: char): char
  {
    if 'A' <= c <= 'Z' then (c as int + 32) as char else c
  }

  /** `toLowerCase` restricted to ASCII: upper-case letters become lower-case, nothing else changes. */
  function Lower(s: string): (r: string)
    ensures |r| == |s|
    ensures forall i :: 0 <= i < |s| ==> r[i] == s[i] || ('A' <= s[i] <= 'Z' && r[i] as int == s[i] as int + 32)
    ensures forall i :: 0 <= i < |r| ==> !('A' <= r[i] <= 'Z')
  {
    seq(|s|, i requires 0 <= i < |s| => LowerChar(s[i]))
  }

  /** Two user names are the same when they agree after lower-casing. */
  predicate SameName(a: string, b: string)
  {
    Lower(a) == Lower(b)
  }

  /** The deputy table after `set(d.id, d)` for each entry `d` of `data`, in order. */
  function SeedTable(m: map<string, Deputy>, data: seq<Deputy>): map<string, Deputy>
  {
    if data == [] then m
    else
      var d := data[|data| - 1];
      SeedTable(m, data[..|data| - 1])[d.id := d]
  }

  /**
   The key order of the deputy table after the same sequence of `set` calls:
   a new key goes to the end, a key already present keeps its place.
   */
  function SeedOrder(order: seq<string>, data: seq<Deputy>): seq<string>
  {
    if data == [] then order
    else
      var prev, d := SeedOrder(order, data[..|data| - 1]), data[|data| - 1];
      if d.id in prev then prev else prev + [d.id]
  }

  /** The ids of the entries of `data`. */
  function IdsOf(data: seq<Deputy>): set<string>
  {
    if data == [] then {} else IdsOf(data[..|data| - 1]) + {data[|data| - 1].id}
  }

  lemma {:induction false} IdsOfMember(data: seq<Deputy>, i: int)
    requires 0 <= i < |data|
    ensures data[i].id in IdsOf(data)
  {
    var n := |data| - 1;
    if i < n {
      IdsOfMember(data[..n], i);
    }
  }

  /** After seeding, the table holds exactly the old keys and the ids of the entries. */
  lemma {:induction false} SeedTableKeys(m: map<string, Deputy>, data: seq<Deputy>)
    ensures SeedTable(m, data).Keys == m.Keys + IdsOf(data)
  {
    if data != [] {
      SeedTableKeys(m, data[..|data| - 1]);
    }
  }

  /** Each value after seeding is an old one or an entry of `data` filed under its own id. */
  lemma {:induction false} SeedTableValues(m: map<string, Deputy>, data: seq<Deputy>, k: string)
    requires k in SeedTable(m, data)
    ensures (k in m && SeedTable(m, data)[k] == m[k])
            || (exists i :: 0 <= i < |data| && data[i] == SeedTable(m, data)[k] && data[i].id == k)
  {
    if data != [] {
      var n := |data| - 1;
      if data[n].id != k {
        SeedTableValues(m, data[..n], k);
        if !(k in m && SeedTable(m, data)[k] == m[k]) {
          var i :| 0 <= i < n && data[..n][i] == SeedTable(m, data[..n])[k] && data[..n][i].id == k;
          assert data[i] == SeedTable(m, data)[k] && data[i].id == k;
        }
      }
    }
  }

  /** Of several entries with one id, the last is the one kept. */
  lemma {:induction false} SeedTableLastWins(m: map<string, Deputy>, data: seq<Deputy>, i: int)
    requires 0 <= i < |data|
    requires forall j :: i < j < |data| ==> data[j].id != data[i].id
    ensures data[i].id in SeedTable(m, data) && SeedTable(m, data)[data[i].id] == data[i]
  {
    var n := |data| - 1;
    if i < n {
      var init := data[..n];
      assert forall j :: i < j < n ==> init[j].id != init[i].id by {
        forall j | i < j < n ensures init[j].id != init[i].id { assert init[j] == data[j]; }
      }
      SeedTableLastWins(m, init, i);
    }
  }

  /** Every entry's id is a key after seeding. */
  lemma {:induction false} SeedTableCovers(m: map<string, Deputy>, data: seq<Deputy>)
    ensures forall i :: 0 <= i < |data| ==> data[i].id in SeedTable(m, data)
  {
    SeedTableKeys(m, data);
    forall i | 0 <= i < |data|
      ensures data[i].id in SeedTable(m, data)
    {
      IdsOfMember(data, i);
    }
  }

  /** Seeding entries that all carry zero votes keeps a table keyed by id with zero counters. */
  lemma SeedTableFresh(m: map<string, Deputy>, data: seq<Deputy>)
    requires KeyedById(m) && forall k :: k in m ==> m[k].votes == 0
    requires forall i :: 0 <= i < |data| ==> data[i].votes == 0
    ensures KeyedById(SeedTable(m, data))
    ensures forall k :: k in SeedTable(m, data) ==> SeedTable(m, data)[k].votes == 0
  {
  }

  /**
   A record with `deputyId` added at the end of its list; it is marked as
   having voted once the list reaches the limit.
   */
  function Appended(r: UserVote, deputyId: string): UserVote
  {
    r.(votedDeputies := r.votedDeputies + [deputyId],
       hasVoted := r.hasVoted || |r.votedDeputies| + 1 == MaxVotes)
  }

  /** `order` lists the keys of `m`, each exactly once. */
  ghost predicate OrderOf(order: seq<string>, m: map<string, Deputy>)
  {
    Distinct(order) && forall k :: k in m <==> k in order
  }

  /** What a vote record looks like while the store keeps it. */
  ghost predicate StoredRecord(u: int, r: UserVote)
  {
    && r.id == u && r.userId == u
    && |r.votedDeputies| <= MaxVotes
    && (r.hasVoted <==> |r.votedDeputies| == MaxVotes)
  }

  /** The deputy table with its iteration order. */
  ghost predicate DeputyTable(deputies: map<string, Deputy>, order: seq<string>)
  {
    KeyedById(deputies) && OrderOf(order, deputies)
  }

  /** The vote-record table, every record filed under its user's id. */
  ghost predicate StoreRecords(userVotes: map<int, UserVote>)
  {
    forall u :: u in userVotes ==> StoredRecord(u, userVotes[u])
  }

  /**
   One accepted vote keeps both tables well formed and raises both totals,
   the deputy counters and the number of listed votes, by one.
   */
  lemma AcceptedVote(deputies: map<string, Deputy>, order: seq<string>, userVotes: map<int, UserVote>,
                     userId: int, deputyId: string)
    requires DeputyTable(deputies, order) && StoreRecords(userVotes)
    requires userId in userVotes && |userVotes[userId].votedDeputies| < MaxVotes && deputyId in deputies
    ensures DeputyTable(deputies[deputyId := Counted(deputies[deputyId])], order)
    ensures StoreRecords(userVotes[userId := Appended(userVotes[userId], deputyId)])
    ensures VotesCast(deputies[deputyId := Counted(deputies[deputyId])]) == VotesCast(deputies) + 1
    ensures VotesListed(userVotes[userId := Appended(userVotes[userId], deputyId)]) == VotesListed(userVotes) + 1
  {
    TotalUpdate(deputies, VotesOf, deputyId, Counted(deputies[deputyId]));
    TotalUpdate(userVotes, ListedOf, userId, Appended(userVotes[userId], deputyId));
  }

  class MemStorage {
    var users: map<int, User>
    var deputies: map<string, Deputy>
    /** The iteration order of the deputy table (a JavaScript Map iterates in insertion order). */
    var deputyOrder: seq<string>
    var userVotes: map<int, UserVote>
    var currentId: int

    ghost predicate Valid()
      reads this
    {
      UsersValid() && DeputiesValid() && RecordsValid()
    }

    /** User ids are 1, 2, ... up to the counter, each user filed under its own id. */
    ghost predicate UsersValid()
      reads this`users, this`currentId
    {
      && currentId >= 1
      && (forall k :: k in users <==> 1 <= k < currentId)
      && (forall k :: k in users ==> users[k].id == k)
    }

    ghost predicate DeputiesValid()
      reads this`deputies, this`deputyOrder
    {
      DeputyTable(deputies, deputyOrder)
    }

    ghost predicate RecordsValid()
      reads this`userVotes
    {
      StoreRecords(userVotes)
    }

    /** Every deputy counter agrees with the vote lists: their totals are equal. */
    ghost predicate Tallied()
      reads this
    {
      Consistent(deputies, userVotes)
    }

    /** The store starts empty apart from the seeded deputies, all with zero votes. */
    constructor (deputyData: seq<Deputy>)
      requires forall i :: 0 <= i < |deputyData| ==> deputyData[i].votes == 0
      ensures Valid() && Tallied()
      ensures users == map[] && userVotes == map[] && currentId == 1
      ensures deputies == SeedTable(map[], deputyData)
      ensures deputyOrder == SeedOrder([], deputyData)
      ensures forall k :: k in deputies ==> deputies[k].id == k && deputies[k].votes == 0
      ensures forall i :: 0 <= i < |deputyData| ==> deputyData[i].id in deputies
    {
      users, deputies, deputyOrder, userVotes, currentId := map[], map[], [], map[], 1;
      new;
      InitializeDeputies(deputyData);
      SeedTableFresh(map[], deputyData);
      SeedTableCovers(map[], deputyData);
      TotalZero(deputies, VotesOf);
    }

    method InitializeDeputies(deputyData: seq<Deputy>)
      requires Valid()
      modifies this
      ensures Valid()
      ensures deputies == SeedTable(old(deputies), deputyData)
      ensures deputyOrder == SeedOrder(old(deputyOrder), deputyData)
      ensures users == old(users) && userVotes == old(userVotes) && currentId == old(currentId)
    {
      for i := 0 to |deputyData|
        invariant Valid()
        invariant deputies == SeedTable(old(deputies), deputyData[..i])
        invariant deputyOrder == SeedOrder(old(deputyOrder), deputyData[..i])
        invariant users == old(users) && userVotes == old(userVotes) && currentId == old(currentId)
      {
        var deputy := deputyData[i];
        assert deputyData[..i + 1][..i] == deputyData[..i];
        if deputy.id !in deputies {
          deputyOrder := deputyOrder + [deputy.id];
        }
        deputies := deputies[deputy.id := deputy];
      }
      assert deputyData[..|deputyData|] == deputyData;
    }

    method GetUser(id: int) returns (r: Option<User>)
      requires Valid()
      ensures r.Some? <==> 1 <= id < currentId
      ensures r.Some? ==> r.value.id == id && id in users && r.value == users[id]
    {
      r := if id in users then Some(users[id]) else None;
    }

    /**
     The first user, in creation order, whose name equals `username` up to
     case; `None` exactly when there is no such user.
     */
    method GetUserByUsername(username: string) returns (r: Option<User>)
      requires Valid()
      ensures r.Some? ==> r.value.id in users && users[r.value.id] == r.value
      ensures r.Some? ==> SameName(r.value.username, username)
      ensures r.Some? ==> forall k :: 1 <= k < r.value.id ==> !SameName(users[k].username, username)
      ensures r.None? <==> forall k :: k in users ==> !SameName(users[k].username, username)
    {
      var wanted := Lower(username);
      var id := 1;
      while id < currentId
        invariant 1 <= id <= currentId
        invariant forall k :: 1 <= k < id ==> !SameName(users[k].username, username)
      {
        if Lower(users[id].username) == wanted {
          return Some(users[id]);
        }
        id := id + 1;
      }
      return None;
    }

    /**
     Issues the next id. The new user gets the counter's old value, which no
     stored user has, and the counter moves on by one.
     */
    method CreateUser(user: InsertUser) returns (u: User)
      requires Valid()
      modifies this
      ensures Valid()
      ensures u == User(old(currentId), user.username, user.password)
      ensures currentId == old(currentId) + 1
      ensures u.id !in old(users) && users == old(users)[u.id := u]
      ensures deputies == old(deputies) && deputyOrder == old(deputyOrder) && userVotes == old(userVotes)
    {
      var id := currentId;
      currentId := currentId + 1;
      u := User(id, user.username, user.password);
      users := users[id := u];
    }

    /** Every deputy once, in the table's iteration order. */
    method GetDeputies() returns (r: seq<Deputy>)
      requires Valid()
      ensures |r| == |deputyOrder|
      ensures forall i :: 0 <= i < |r| ==> deputyOrder[i] in deputies && r[i] == deputies[deputyOrder[i]]
      ensures forall k :: k in deputies ==> exists i :: 0 <= i < |r| && r[i] == deputies[k]
      ensures forall i, j :: 0 <= i < j < |r| ==> r[i].id != r[j].id
    {
      r := [];
      for i := 0 to |deputyOrder|
        invariant |r| == i
        invariant forall j :: 0 <= j < i ==> r[j] == deputies[deputyOrder[j]]
      {
        r := r + [deputies[deputyOrder[i]]];
      }
      forall k | k in deputies
        ensures exists i :: 0 <= i < |r| && r[i] == deputies[k]
      {
        var i :| 0 <= i < |deputyOrder| && deputyOrder[i] == k;
        assert r[i] == deputies[k];
      }
    }

    method GetUserVotes(userId: int) returns (r: Option<UserVote>)
      requires Valid()
      ensures r.Some? <==> userId in userVotes
      ensures r.Some? ==> r.value == userVotes[userId] && r.value.userId == userId
      ensures r.Some? ==> |r.value.votedDeputies| <= MaxVotes
    {
      r := if userId in userVotes then Some(userVotes[userId]) else None;
    }

    /**
     Files an empty record for `userId`, replacing any record it had. The
     counters are kept in step only when the replaced record was empty.
     */
    method CreateUserVotes(userId: int) returns (v: UserVote)
      requires Valid()
      modifies this
      ensures Valid()
      ensures v == UserVote(userId, userId, false, [])
      ensures userVotes == old(userVotes)[userId := v]
      ensures users == old(users) && deputies == old(deputies) && deputyOrder == old(deputyOrder)
      ensures currentId == old(currentId)
      ensures VotesListed(userVotes) == old(VotesListed(userVotes))
                - (if userId in old(userVotes) then |old(userVotes)[userId].votedDeputies| else 0)
      ensures old(Tallied()) && (userId in old(userVotes) ==> old(userVotes)[userId].votedDeputies == [])
              ==> Tallied()
    {
      v := UserVote(userId, userId, false, []);
      TotalUpdate(userVotes, ListedOf, userId, v);
      userVotes := userVotes[userId := v];
    }

    /**
     Casts one vote. It is refused when the user has no record, has used all
     votes, or names no stored deputy; a deputy already on the list is not
     refused. On success the deputy's counter and the user's list both grow
     by one, so both totals rise by exactly one.
     */
    method VoteForDeputy(userId: int, deputyId: string) returns (ok: bool)
      requires Valid()
      modifies this
      ensures Valid()
      ensures ok <==> userId in old(userVotes)
                      && |old(userVotes)[userId].votedDeputies| < MaxVotes
                      && deputyId in old(deputies)
      ensures !ok ==> deputies == old(deputies) && userVotes == old(userVotes)
      ensures ok ==> deputies == old(deputies)[deputyId := Counted(old(deputies)[deputyId])]
      ensures ok ==> userVotes == old(userVotes)[userId := Appended(old(userVotes)[userId], deputyId)]
      ensures users == old(users) && deputyOrder == old(deputyOrder) && currentId == old(currentId)
      ensures VotesCast(deputies) == old(VotesCast(deputies)) + (if ok then 1 else 0)
      ensures VotesListed(userVotes) == old(VotesListed(userVotes)) + (if ok then 1 else 0)
    {
      ok := userId in userVotes && |userVotes[userId].votedDeputies| < MaxVotes && deputyId in deputies;
      if ok {
        var deputy := Counted(deputies[deputyId]);
        var userVote := userVotes[userId];
        userVote := userVote.(votedDeputies := userVote.votedDeputies + [deputyId]);
        if |userVote.votedDeputies| == MaxVotes {
          userVote := userVote.(hasVoted := true);
        }
        assert userVote == Appended(userVotes[userId], deputyId);
        AcceptedVote(deputies, deputyOrder, userVotes, userId, deputyId);
        deputies := deputies[deputyId := deputy];
        userVotes := userVotes[userId := userVote];
      }
    }
  }

  /**
   A client of the store: voting twice in a row for the same deputy succeeds
   both times, the deputy appears twice on the list and gains two votes.
   */
  method VoteTwice(store: MemStorage, userId: int, deputyId: string) returns (first: bool, second: bool)
    requires store.Valid()
    requires userId in store.userVotes && |store.userVotes[userId].votedDeputies| + 2 <= MaxVotes
    requires deputyId in store.deputies
    modifies store
    ensures first && second
    ensures userId in store.userVotes && deputyId in store.deputies
    ensures store.userVotes[userId].votedDeputies == old(store.userVotes[userId].votedDeputies) + [deputyId, deputyId]
    ensures store.deputies[deputyId].votes == old(store.deputies[deputyId].votes) + 2
  {
    first := store.VoteForDeputy(userId, deputyId);
    second := store.VoteForDeputy(userId, deputyId);
  }
}
