# Saeima vote bookkeeping, in Dafny

The application lets logged-in users vote for up to five deputies of the
Latvian Saeima and shows the deputies ordered by vote count. This project
models the bookkeeping behind that:

- **`Storage`** (`storage.dfy`) models the in-memory store `MemStorage` as a
  class. Its fields are the user table, the deputy table with its iteration
  order, the per-user vote records and the user id counter. It covers seeding,
  user lookup and creation, the deputy listing, vote records and
  `voteForDeputy`.
- **`Routes`** (`routes.dfy`) models the three voting routes over the
  database:
  - `GET /api/deputies` serves the deputies highest vote count first.
  - `GET /api/votes` returns the user's record, or a zero-value default.
  - `POST /api/vote/:deputyId` is modelled as a pure decision (`Decide`)
    followed by the writes it calls for (class `Database`).
- **`Ordering`** (`ordering.dfy`) is the reference meaning of
  `ORDER BY votes DESC`: an insertion sort, proved ordered and a permutation.
- **`Tally`** (`tally.dfy`) sums over the tables. One sum adds up the deputy
  counters, the other adds up the lengths of the vote lists. The application's
  consistency requirement is that the two are equal (`Consistent`).
- **`Schema`** (`schema.dfy`) holds the records `User`, `Deputy` and
  `UserVote`, the limit of five votes and `Option`.

The application's stated rules are: at most five distinct deputies per user;
a vote for an unknown deputy is refused as not found; an anonymous caller gets
a default vote record. The code differs from these rules in three places, and
the model follows the code:

1. The vote route never checks that the deputy exists (see Findings).
2. `voteForDeputy` in the memory store does not refuse a deputy already on
   the list. `VoteTwice` proves that a repeated vote is accepted.
3. `GET /api/votes` answers 401 to an anonymous caller; it does not return the
   default record.

One more observation about the code: the routes treat a user id of 0 as "not
logged in", because `!req.user?.id` is true for 0 (`Authenticated`).

## Model

| member | source | states |
|---|---|---|
| Storage.MemStorage.constructor | server/storage.ts:25-34 | the store starts with no users and no vote records, counter 1, and the deputy table seeded from the list; every seeded id is a key, every deputy is filed under its own id with 0 votes, and the two totals agree |
| Storage.SeedTable | server/storage.ts:59-61 | definition: the table after `set(d.id, d)` for each entry in list order, so a later entry with the same id replaces an earlier one |
| Storage.SeedOrder | server/storage.ts:59-61 | definition: the Map's key order after the same `set` calls; a new key goes to the end, and a key already present keeps its place |
| Storage.SeedTableCovers | server/storage.ts:59-61 | every seeded entry's id is a key of the table afterwards |
| Storage.MemStorage.InitializeDeputies | server/storage.ts:36-62 | the table is the old one after `set(d.id, d)` for each entry in turn; a new key joins the end of the iteration order, a repeated key keeps its place; nothing else changes |
| Storage.SeedTableKeys | server/storage.ts:59-61 | after seeding, the table's keys are exactly the old keys plus the ids of the seeded entries |
| Storage.SeedTableValues | server/storage.ts:59-61 | every value after seeding is either the old value under that key or a seeded entry whose id is that key |
| Storage.SeedTableLastWins | server/storage.ts:59-61 | of several seeded entries with one id, the last one is stored |
| Storage.SeedTableFresh | server/storage.ts:37-61 | seeding entries that all have 0 votes leaves every deputy filed under its own id with a counter of 0 |
| Storage.MemStorage.GetUser | server/storage.ts:64-66 | a user is found exactly when the id is one the counter has issued (1 up to the counter), and it is the user stored under that id |
| Storage.Lower | server/storage.ts:70 | `toLowerCase` on the letters A to Z: same length; each upper-case letter becomes its lower-case form and every other character stays; no upper-case letter is left |
| Storage.SameName | server/storage.ts:70 | definition: the `find` test, where two names match when they are equal after lower-casing both |
| Storage.MemStorage.GetUserByUsername | server/storage.ts:68-72 | the result is the first user in creation order whose name equals the given one after lower-casing both; the result is None exactly when no stored user matches |
| Storage.MemStorage.CreateUser | server/storage.ts:74-79 | the new user gets the counter's old value as id, which no stored user has; the counter rises by one; only that entry is added |
| Storage.MemStorage.GetDeputies | server/storage.ts:81-83 | every deputy exactly once, in the table's iteration order, with no id twice |
| Storage.MemStorage.GetUserVotes | server/storage.ts:85-87 | the stored record exactly when there is one; it belongs to that user and lists at most five deputies |
| Storage.MemStorage.CreateUserVotes | server/storage.ts:89-98 | files the empty record `(userId, userId, false, [])`, replacing any old one; the list total falls by the replaced list's length, so the totals stay equal only when that list was empty |
| Schema.Counted | server/storage.ts:107 | `deputy.votes++`: the counter rises by one, and the id, name and faction stay the same |
| Storage.Appended | server/storage.ts:108-111 | definition: `push(deputyId)` onto the list, then hasVoted set to true once the list has five entries (an earlier true stays true) |
| Storage.AcceptedVote | server/storage.ts:100-116 | one accepted vote keeps both tables well formed and raises the counter total and the listed-vote total by exactly one each |
| Storage.MemStorage.VoteForDeputy | server/storage.ts:100-116 | succeeds exactly when the user has a record with fewer than five entries and the deputy exists; a refusal changes nothing; a success adds one to that deputy and appends it to the list, with hasVoted set once the list is full; nothing else changes; both totals rise by the same amount; a list never exceeds five, and hasVoted holds exactly when it has five |
| Storage.VoteTwice | server/storage.ts:100-116 | two votes in a row for the same deputy both succeed: the deputy is listed twice and gains two votes, because the store does not check for repeats |
| Ordering.InsertByVotes | server/routes.ts:16-18 | definition: the deputy placed before the first entry that has no more votes than it |
| Ordering.SortByVotes | server/routes.ts:16-18 | definition: insertion sort by votes, highest first; the reference meaning of `orderBy desc(votes)` |
| Ordering.InsertByVotesCount | server/routes.ts:16-18 | inserting adds exactly the one deputy, as a multiset |
| Ordering.InsertByVotesHead | server/routes.ts:16-18 | insertion lengthens the list by one, and the new head is the inserted deputy or the old head |
| Ordering.InsertByVotesCorrect | server/routes.ts:16-18 | inserting into a list ordered by votes, highest first, keeps it ordered |
| Ordering.SortByVotesCorrect | server/routes.ts:16-18 | the sorted list is ordered by votes, highest first, and is a permutation of the input |
| Routes.TableRows | server/routes.ts:16-18 | a scan of the deputy table gives each stored deputy exactly once |
| Routes.ListingPermutation | server/routes.ts:16-18 | reordering a complete listing gives a complete listing |
| Routes.SortedDeputies | server/routes.ts:68-70 | the `findMany` query ordered by `desc(votes)`: every deputy of the table exactly once, highest vote count first |
| Routes.Database.constructor | shared/schema.ts:5-23 | the database starts with the given users and deputies, which must each be filed under their primary key `id`, as the class invariant keeps them; it has no vote records, and the `user_votes` serial starts at 1 |
| Routes.Database.ListDeputies | server/routes.ts:15-20 | every deputy exactly once, ordered by votes with the highest first |
| Routes.Authenticated | server/routes.ts:23-25 | definition: the `!req.user?.id` test, used again at lines 34-36; a missing user and a user id of 0 both count as not logged in |
| Routes.StoredVotes | server/routes.ts:41-43 | definition: the `findFirst` on `user_votes` by `userId`; the user's record, or none |
| Routes.Database.GetVotes | server/routes.ts:22-31 | 401 exactly when there is no logged-in user (a user id of 0 counts as none); otherwise the user's stored record, or `{userId, hasVoted: false, votedDeputies: []}` when there is none |
| Routes.Decide | server/routes.ts:45-62 | with no record, insert `[deputyId]` with hasVoted false (no other check); with five or more entries, refuse before the repeat check; a deputy already listed is refused; otherwise append, with hasVoted exactly when the old length plus one is at least five; it never refuses for a missing deputy |
| Routes.Refusal | server/routes.ts:51-54 | the answer to a refused vote: 400 with a non-empty message for a full list and for a repeated deputy (the Latvian messages of lines 52 and 54), 404 for an unknown deputy |
| Routes.Recorded | server/routes.ts:45-61 | the `user_votes` table after the insert or update: only the user's own record changes; it carries the verdict's list and flag; an insert is a new row with the given serial, and an update keeps the row's id and owner |
| Routes.DecideKeepsWellFormed | server/routes.ts:45-62 | a written list has at most five entries and no repeats, and hasVoted holds exactly when it has five, provided the old record had these properties |
| Routes.RecordedKeepsTable | server/routes.ts:45-62 | writing the decided record keeps every record filed under its user and well formed |
| Routes.RecordedEffect | server/routes.ts:45-62 | the insert or update lengthens the listed-vote total by exactly one |
| Routes.Bump | server/routes.ts:64-66 | `votes = votes + 1 WHERE id = deputyId`: the named deputy, when it exists, gains one vote; the keys and every other deputy stay the same; for an unknown id nothing changes |
| Routes.BumpEffect | server/routes.ts:64-66 | the counter update keeps every deputy filed under its own id; the counter total rises by one, or by zero for an unknown id |
| Routes.KnownDeputyKeepsTally | server/routes.ts:45-66 | a vote for a stored deputy keeps the counter total equal to the listed-vote total |
| Routes.UnknownDeputyBreaksTally | server/routes.ts:45-66 | a vote for an unknown deputy that the handler accepts leaves the counter total one below the listed-vote total |
| Routes.DecideChecked | server/routes.ts:45-66 | the decision with the existence check added as the last check: it agrees with `Decide` except that a vote it would accept for an unknown deputy is refused as not found |
| Routes.CheckedVoteKeepsTally | server/routes.ts:45-66 | with the existence check, every accepted vote keeps the totals equal |
| Routes.Database.Commit | server/routes.ts:45-70 | writes the decided record (a new row takes the next serial), raises the deputy's counter, and returns the full deputy list ordered by votes |
| Routes.Database.CastVote | server/routes.ts:33-78 | 401 with no change when logged out; each refusal gives 400 with its message and no change; otherwise the record and counter are updated, the serial moves on by one after an insert, and the ordered list is broadcast; the totals stay equal when the deputy exists |
| Routes.Database.CastVoteChecked | server/routes.ts:33-78 | the corrected handler: as `CastVote`, but an unknown deputy gives 404, and every accepted vote keeps the totals equal |

## Left out

- Storage.Lower, Storage.MemStorage.GetUserByUsername: lower-casing is modelled for the letters A to Z only. JavaScript's `toLowerCase` in `getUserByUsername` also maps non-ASCII letters.
- `Storage.MemStorage.CreateUser`: the id counter is an unbounded integer. The source counts in a JavaScript number, whose precision runs out above 2^53.
- Aliasing is not modelled. The store hands out its own record objects, and a caller who changes a returned deputy or vote record changes the store. The model returns values.
- `Storage.MemStorage.constructor` takes the seed list as a parameter instead of the literal list of deputies with their names and factions. It requires only what the literal guarantees: every entry starts at 0 votes.
- The session store, password hashing, login and registration (the `auth` module) are not modelled. The logged-in user is a parameter, `sessionUser`.
- Input validation of the shared schema (zod) is not modelled.
- The WebSocket broadcast is not modelled: the accepted vote returns the list that would be sent.
- Concurrency is not modelled. Each route runs as one atomic step, with no interleaving between the `findFirst` and the later writes.
- The 500 path (a database error caught and logged) is not modelled.
- `GET /api/users` and the server start-up are not modelled.
- The database is a map keyed by user id, so it holds at most one vote record per user. `findFirst` in the source would pick one of several.
- `Routes.Database.ListDeputies`: the order among deputies with equal votes is not stated. The source leaves it to the database.
- `Routes.Database.CastVote`: the update at routes.ts:65 uses `sql` without importing it. The model takes the intended `votes + 1`.
- `Storage.MemStorage.VoteForDeputy`: equal totals are not part of the class invariant, because `createUserVotes` may overwrite a non-empty record (see `CreateUserVotes`). Instead the method states that both totals rise together.

## Findings

| source | as written | input that shows it | evidently intended | confidence | as-written member | corrected member |
|---|---|---|---|---|---|---|
| server/routes.ts:45-66 | the vote handler never checks that the deputy exists. It records the id on the user's list, and the counter update at line 64-66 changes no row | a logged-in user without a record posts `/api/vote/abc` when there is no deputy `abc`: the record `["abc"]` is inserted, no counter moves, and the counter total falls one below the listed-vote total | an unknown deputy is refused as not found, so every accepted vote raises exactly one counter | medium, not executed | Routes.UnknownDeputyBreaksTally | Routes.CheckedVoteKeepsTally |
