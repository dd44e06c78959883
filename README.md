# Friend service, modelled in Dafny

A model of `FriendService` (services/friendService.js), the data-access
service of a social application's friend feature. It keeps a table of
friendship records (id, sender, receiver, friendshipType, isAccepted,
createdAt, acceptedAt) and offers:

- `addFriend`: create a pending request from the current user to a receiver;
- `acceptRequest`: pending → accepted, by the receiver only;
- `refuseRequest`: pending → deleted, by the receiver only;
- `getFriendshipInfo`: read one record, for its receiver only;
- `getFriendRequestsWithPagination`, `getFriendListWithPagination`: paged
  listings of pending requests to a user and of a user's accepted friendships.

Errors are the three kinds the service raises: `BadRequest`,
`TargetAlreadyExists`, `TargetNotExist`.

Layout:

- `friend_model.dfy` (module `FriendModel`): the record, the error kinds, and
  every query object the service builds as a `Filter` value with an explicit
  predicate `Holds` over one record; `FindOne` is the store's `findOne`; the
  table invariants (unique ids, no self-request, acceptedAt set exactly on
  accepted records, at most one record per unordered pair of users).
- `pagination.dfy` (module `Pagination`): `getPaginatedResults`: the
  newest-first selection, `countDocuments`, skip, window and page count.
- `friend_queries.dfy` (module `FriendQueries`): the two listings and
  `getFriendshipInfo`, as functions of the table.
- `friend_transitions.dfy` (module `FriendTransitions`): `addFriend`,
  `acceptRequest` and `refuseRequest` as functions from the table before to
  the outcome and the table after, with the life-cycle lemmas.
- `friend_service.dfy` (module `Service`): class `FriendService`, whose
  `records` field is the table in insertion order and whose `nextId` field is
  the store's id supply. Its mutating methods change the table in place and
  are proved against the transition functions; its read-only methods have no
  `modifies` clause.

The duplicate check of `addFriend` is modelled as written. Its second `$or`
clause, `{ receiver: receiverId, receiver: senderId }`, repeats the key
`receiver`; in JavaScript the last one wins, so the clause is
`{ receiver: senderId }`. The check therefore matches a record from the sender
to the receiver, or ANY record whose receiver is the sender. One might expect
the second clause to be the reverse orientation
`{ sender: receiverId, receiver: senderId }`; as written it also catches that
orientation (`ReverseOrientationBlocked`), and in addition refuses every
request from a user while any stored record names that user as receiver
(`OverBlocking`). The model follows the code. Because of the broader clause,
the invariant "at most one record per unordered pair" is kept when operations
run one at a time (`AddFriendPreservesInvariant`).

## Model

| member | source | states |
|---|---|---|
| FriendModel.Holds | services/friendService.js:34-158 | the query literals: pending requests to id (:34-37), accepted friendships with id as sender or receiver (:54-60), the duplicate check as written (:82-89), where the repeated `receiver` key leaves `{ receiver: senderId }`, so every record addressed to the sender matches, besides sender→receiver, and nothing else does; the pending request id to the user (:115-119 and :142-146); record id addressed to the user (:155-158) |
| FriendModel.FindOne | services/friendService.js:82-89 | `findOne`: absent exactly when no record satisfies the filter; otherwise the first record in store order that satisfies it |
| Pagination.NewestFirst | services/friendService.js:17-18 | the fetch returns exactly the stored records the query matches, one entry per matching position of the table |
| Pagination.NewestFirstIsCreatedDescending | services/friendService.js:18 | when createdAt ascends with insertion, the selection is sorted by createdAt descending, as `sort({ createdAt: -1 })` asks |
| Pagination.CountDocuments | services/friendService.js:21 | `countDocuments` is the number of table positions whose record matches the query, zero exactly when none does |
| Pagination.CountIsSelectionLength | services/friendService.js:17-22 | the count and the unpaged fetch see the same records: the count is the selection's length |
| Pagination.Window | services/friendService.js:19-20 | `.skip(n).limit(l)` yields min(l, max(0, total − n)) records, the ones at positions n, n+1, … of the selection |
| Pagination.TotalPages | services/friendService.js:27 | `Math.ceil(total / limit)`: the least page count whose pages hold every record |
| Pagination.GetPaginatedResults | services/friendService.js:15-28 | totalDocuments is the number of matching table positions, equal to the length of the newest-first selection; the page skips (page−1)·limit of them and holds min(limit, max(0, total − skip)) matching records in newest-first order; totalPages is the ceiling of total / limit (all but the first fact form the predicate `Pagination.PageOf` of the selection); every listed record is stored and matches the filter, and total is 0 exactly when none matches |
| Pagination.WindowIsPage | services/friendService.js:16-27 | for any sorted selection, `.skip((page−1)·limit).limit(limit)` together with the selection's length and `Math.ceil(length / limit)` is that page of the selection |
| Pagination.PageOfPosition | services/friendService.js:16-27 | position k of the selection lies in the window of page k / limit + 1, and that page is within totalPages |
| Pagination.EveryMatchOnSomePage | services/friendService.js:15-28 | every matching record appears on some page between 1 and totalPages |
| FriendQueries.GetFriendRequestsWithPagination | services/friendService.js:31-49 | echoes page and limit (defaults 1 and 10); totalRequests is the number of records with receiver = id and not accepted; totalPages is the ceiling of totalRequests / limit; the page holds min(limit, max(0, totalRequests − (page−1)·limit)) records, those at positions (page−1)·limit, … of the newest-first selection of such records (`Pagination.PageOf` of its newest-first selection) |
| FriendQueries.GetFriendListWithPagination | services/friendService.js:51-72 | echoes page and limit (defaults 1 and 10); totalFriends is the number of accepted records where id is sender or receiver; totalPages is the ceiling of totalFriends / limit; the page holds min(limit, max(0, totalFriends − (page−1)·limit)) records, those at positions (page−1)·limit, … of the newest-first selection of such records (`Pagination.PageOf` of its newest-first selection) |
| FriendQueries.EveryRequestListed | services/friendService.js:34-40 | each pending request to id is on some page of the request listing |
| FriendQueries.EveryFriendListed | services/friendService.js:54-63 | each accepted friendship of id, as sender or receiver, is on some page of the friend list |
| FriendQueries.SoleFriendListed | services/friendService.js:51-72 | on a table holding one accepted friendship of id, the default first page counts one friend in one page and lists exactly that record |
| FriendQueries.GetFriendshipInfo | services/friendService.js:152-165 | succeeds exactly when record id exists with receiver = current user, accepted or not, and returns that record; otherwise TargetNotExist |
| FriendTransitions.TypeOrDefault | services/friendService.js:97 | `friendshipType \|\| FRIENDSHIP.FRIEND`: the given type when present and non-empty, FRIEND when absent or empty; never empty |
| FriendTransitions.AddFriend | services/friendService.js:74-111 | self-request: BadRequest, table unchanged; a record sender→receiver or any record addressed to the sender: TargetAlreadyExists, table unchanged; otherwise exactly one pending record with the fresh id, the given type (FRIEND when absent or empty) and no acceptedAt is appended and returned |
| FriendTransitions.Accepted | services/friendService.js:125-126 | the accepted record has isAccepted set and acceptedAt = now; id, sender, receiver, type and createdAt are those of the request |
| FriendTransitions.AcceptRequest | services/friendService.js:112-138 | succeeds exactly when record id is pending and addressed to the current user; then that record, with isAccepted set and acceptedAt = now, replaces it in place and is returned; otherwise TargetNotExist and the table is unchanged |
| FriendTransitions.RefuseRequest | services/friendService.js:140-151 | succeeds exactly when record id is pending and addressed to the current user; then that one record is removed; otherwise TargetNotExist and the table is unchanged |
| FriendTransitions.ReverseOrientationBlocked | services/friendService.js:82-93 | a request A→B fails with TargetAlreadyExists whenever a record B→A exists |
| FriendTransitions.OverBlocking | services/friendService.js:86-88 | with only a record carol→alice stored, alice→bob fails with TargetAlreadyExists although no record joins alice and bob |
| FriendTransitions.AddFriendPreservesInvariant | services/friendService.js:78-100 | addFriend keeps ids unique, sender ≠ receiver, acceptedAt set iff accepted, and at most one record per unordered pair |
| FriendTransitions.AcceptPreservesInvariant | services/friendService.js:115-127 | acceptRequest keeps the same table invariants |
| FriendTransitions.RefusePreservesInvariant | services/friendService.js:142-150 | refuseRequest keeps the same table invariants |
| FriendTransitions.AddFriendKeepsCreatedOrder | services/friendService.js:94-100 | with a clock that does not run back, the table stays in createdAt order |
| FriendTransitions.AcceptKeepsCreatedOrder | services/friendService.js:125-127 | acceptRequest keeps the table in createdAt order |
| FriendTransitions.RefuseKeepsCreatedOrder | services/friendService.js:142-146 | refuseRequest keeps the table in createdAt order |
| FriendTransitions.AcceptChangesOnlyTarget | services/friendService.js:115-127 | acceptRequest changes the record id alone, and only its isAccepted and acceptedAt; sender and receiver never change |
| FriendTransitions.RefuseRemovesExactlyTarget | services/friendService.js:142-150 | after a successful refuse the table holds exactly the old records whose id differs from id |
| FriendTransitions.SecondAcceptFails | services/friendService.js:115-123 | after a successful accept, accepting the same id again, by anybody, fails with TargetNotExist and changes nothing |
| FriendTransitions.RefusedIsGone | services/friendService.js:142-162 | after a successful refuse, getFriendshipInfo on that id fails with TargetNotExist for every user |
| FriendTransitions.AcceptedStillVisible | services/friendService.js:155-164 | after accepting, getFriendshipInfo by the receiver returns the accepted record |
| FriendTransitions.RequestAcceptedScenario | services/friendService.js:51-127 | u1 asks u2 (pending, type FRIEND), u2 accepts (accepted at the given time); both list the friendship and u2 has no pending request |
| Service.FriendService.AddFriend | services/friendService.js:74-111 | updates the table as FriendTransitions.AddFriend says, keeps the invariants, draws a fresh id and leaves the id supply alone on error |
| Service.FriendService.AcceptRequest | services/friendService.js:112-138 | updates the record in place as FriendTransitions.AcceptRequest says; every other record is unchanged |
| Service.FriendService.RefuseRequest | services/friendService.js:140-151 | deletes as FriendTransitions.RefuseRequest says; afterwards the table holds exactly the old records other than id |
| Service.FriendService.GetFriendshipInfo | services/friendService.js:152-165 | read-only; succeeds exactly when record id is addressed to the current user |
| Service.FriendService.GetFriendRequestsWithPagination | services/friendService.js:31-49 | read-only; answers FriendQueries.GetFriendRequestsWithPagination of the current table |
| Service.FriendService.GetFriendListWithPagination | services/friendService.js:51-72 | read-only; answers FriendQueries.GetFriendListWithPagination of the current table |
| Service.RequestLifecycle | services/friendService.js:51-151 | on a new service object: u1 asks u2, u2 accepts at `later`, and the accepted record is the u1→u2 FRIEND record created at `now`; a second accept fails with TargetNotExist; u1's first friend-list page counts one friend and lists that record |

## Left out

- The document store (`Friend.find`, `findOne`, `findOneAndDelete`, `countDocuments`, `save`): replaced by the in-memory table and the explicit filter predicates. Store-level errors, which would propagate to the caller, are not modelled.
- EveryMatchOnSomePage, EveryRequestListed, EveryFriendListed: these lemmas rest on one fixed order for records with equal createdAt, the same for every page query; the store guarantees no such order across separate `find().sort().skip().limit()` calls, so two records created in the same millisecond that straddle a page boundary may show up on both pages or on neither.
- Pagination.NewestFirst: replaces the sort by createdAt with reverse insertion order; `NewestFirstIsCreatedDescending` shows the two agree when createdAt ascends with insertion. The order of records with equal createdAt is not modelled.
- Kafka notifications after addFriend and acceptRequest (target, type, content, link): fire-and-forget calls whose outcome never reaches the caller.
- The concurrent count and fetch (`Promise.all`): modelled as two reads of the same table state.
- AddFriend, AcceptRequest, RefuseRequest: each is modelled as one atomic step. The source awaits `findOne` and then `save` with no locking, so interleavings between the check and the write of concurrent calls (two `addFriend` calls for the same pair both passing the duplicate check, for one) are not captured; the table invariants are proved for operations run one at a time.
- The createdAt order is not part of the service object's invariant, since the service takes any `now`; the order lemmas hold under a clock that does not run back.
- `Date.now()` and the store's creation timestamp: passed in as the `now` parameter.
- Store-generated ids: the `nextId` counter of the service object hands them out.
- JavaScript coercion of `page` and `limit` (`parseInt`, float division under `Math.ceil`, string operands): both are integers, and the listings require them to be at least 1; the code itself does not validate them.
- The `currentUser` object: only its `userId` is passed.
- The FRIENDSHIP constants module is not part of this model; the default type is taken to be the string "FRIEND", and among falsy `friendshipType` values only an absent one and the empty string are modelled.
- The constructor's `bind` calls and the exported singleton instance.
