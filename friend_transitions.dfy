/** The three operations of the friend service that change the friendship
    table, as functions from the table before to the outcome and the table
    after, with the properties of the request life cycle they give:
    pending on creation, pending to accepted, pending to deleted. */
module FriendTransitions {
  import opened FriendModel
  import opened FriendQueries

  /** What an operation answers and what the table holds afterwards. */
  datatype Step<+T> = Step(result: Result<T>, records: seq<Friendship>)

  /** `friendshipType || FRIENDSHIP.FRIEND`: an absent or empty type falls
      back to FRIEND. */
  function TypeOrDefault(friendshipType: Option<string>): (t: string)
    ensures t != ""
    ensures friendshipType.Some? && friendshipType.value != "" ==> t == friendshipType.value
    ensures friendshipType.None? || friendshipType == Some("") ==> t == FRIEND
  {
    if friendshipType.Some? && friendshipType.value != "" then friendshipType.value else FRIEND
  }

  /** addFriend({ currentUser, receiverId, friendshipType }): `freshId` is
      the id the store gives the new record and `now` its creation time. */
  function AddFriend(
    s: seq<Friendship>, senderId: UserId, receiverId: UserId,
    friendshipType: Option<string>, freshId: Id, now: int): (out: Step<Friendship>)
    ensures senderId == receiverId ==> out == Step(Err(BadRequest), s)
    ensures senderId != receiverId &&
            (exists i :: 0 <= i < |s| && ((s[i].sender == senderId && s[i].receiver == receiverId) ||
                                          s[i].receiver == senderId))
            ==> out == Step(Err(TargetAlreadyExists), s)
    ensures out.result.Ok? <==> senderId != receiverId && !AnyMatch(s, ExistingBetween(senderId, receiverId))
    ensures out.result.Ok? ==>
              && out.records == s + [out.result.value]
              && out.result.value.id == freshId
              && out.result.value.sender == senderId
              && out.result.value.receiver == receiverId
              && !out.result.value.isAccepted
              && out.result.value.acceptedAt == None
              && out.result.value.createdAt == now
              && (friendshipType.None? ==> out.result.value.friendshipType == FRIEND)
              && (friendshipType == Some("") ==> out.result.value.friendshipType == FRIEND)
              && (friendshipType.Some? && friendshipType.value != "" ==>
                    out.result.value.friendshipType == friendshipType.value)
  {
    if senderId == receiverId then Step(Err(BadRequest), s)
    else if FindOne(s, ExistingBetween(senderId, receiverId)).Some? then Step(Err(TargetAlreadyExists), s)
    else
      var friendship := Friendship(freshId, senderId, receiverId, TypeOrDefault(friendshipType), false, now, None);
      Step(Ok(friendship), s + [friendship])
  }

  /** The record `r` once accepted at time `now`. */
  function Accepted(r: Friendship, now: int): (a: Friendship)
    ensures a.isAccepted && a.acceptedAt == Some(now)
    ensures a.id == r.id && a.sender == r.sender && a.receiver == r.receiver
    ensures a.friendshipType == r.friendshipType && a.createdAt == r.createdAt
  {
    r.(isAccepted := true, acceptedAt := Some(now))
  }

  /** acceptRequest({ id, currentUser }) at time `now`. */
  function AcceptRequest(s: seq<Friendship>, id: Id, currentUserId: UserId, now: int): (out: Step<Friendship>)
    ensures out.result.Ok? <==>
              exists i :: 0 <= i < |s| && s[i].id == id && s[i].receiver == currentUserId && !s[i].isAccepted
    ensures out.result.Err? ==> out == Step(Err(TargetNotExist), s)
    ensures out.result.Ok? ==>
              exists k :: 0 <= k < |s| && Holds(PendingRequest(id, currentUserId), s[k]) &&
                          out.result.value == Accepted(s[k], now) &&
                          out.records == s[k := out.result.value]
  {
    match FindOne(s, PendingRequest(id, currentUserId))
    case None => Step(Err(TargetNotExist), s)
    case Some(k) =>
      var friendRequest := Accepted(s[k], now);
      Step(Ok(friendRequest), s[k := friendRequest])
  }

  /** refuseRequest({ id, currentUser }): the pending request is found and
      deleted in one store call. */
  function RefuseRequest(s: seq<Friendship>, id: Id, currentUserId: UserId): (out: Step<()>)
    ensures out.result.Ok? <==>
              exists i :: 0 <= i < |s| && s[i].id == id && s[i].receiver == currentUserId && !s[i].isAccepted
    ensures out.result.Err? ==> out == Step(Err(TargetNotExist), s)
    ensures out.result.Ok? ==>
              |out.records| == |s| - 1 &&
              exists k :: 0 <= k < |s| && Holds(PendingRequest(id, currentUserId), s[k]) &&
                          out.records == s[..k] + s[k + 1..]
  {
    match FindOne(s, PendingRequest(id, currentUserId))
    case None => Step(Err(TargetNotExist), s)
    case Some(k) => Step(Ok(()), s[..k] + s[k + 1..])
  }

  // ---------------------------------------------------------------------
  // The duplicate check as written

  /** The duplicate check does catch a request in the reverse orientation:
      a record from B to A names A as receiver. */
  lemma ReverseOrientationBlocked(s: seq<Friendship>, a: UserId, b: UserId, k: nat,
                                  t: Option<string>, freshId: Id, now: int)
    requires a != b && k < |s| && s[k].sender == b && s[k].receiver == a
    ensures AddFriend(s, a, b, t, freshId, now) == Step(Err(TargetAlreadyExists), s)
  {
    assert Holds(ExistingBetween(a, b), s[k]);
  }

  /** The duplicate check over-blocks: while anybody has a record naming A
      as receiver, A can send no request to anybody, although no record
      joins A and B in either orientation. */
  lemma OverBlocking()
    ensures var s := [Friendship(0, "carol", "alice", FRIEND, false, 0, None)];
            && !(exists i :: 0 <= i < |s| && SamePair(s[i], Friendship(1, "alice", "bob", FRIEND, false, 1, None)))
            && AddFriend(s, "alice", "bob", None, 1, 1) == Step(Err(TargetAlreadyExists), s)
  {
    var s := [Friendship(0, "carol", "alice", FRIEND, false, 0, None)];
    assert Holds(ExistingBetween("alice", "bob"), s[0]);
  }

  // ---------------------------------------------------------------------
  // Invariants kept by every transition

  /** A successful addFriend keeps every table invariant: the new record is
      not a self-request, and the duplicate check, as written, rules out a
      second record for the same unordered pair. */
  lemma {:induction false} AddFriendPreservesInvariant(
    s: seq<Friendship>, senderId: UserId, receiverId: UserId,
    friendshipType: Option<string>, freshId: Id, now: int)
    requires StoreInvariant(s) && freshId !in Ids(s)
    ensures StoreInvariant(AddFriend(s, senderId, receiverId, friendshipType, freshId, now).records)
  {
    var out := AddFriend(s, senderId, receiverId, friendshipType, freshId, now);
    if out.result.Ok? {
      var t := out.records;
      var n := out.result.value;
      assert t[|s|] == n;
      forall i | 0 <= i < |s| ensures s[i].id != n.id && !SamePair(s[i], n) {
        assert s[i] in s;
        assert !Holds(ExistingBetween(senderId, receiverId), s[i]);
      }
    }
  }

  lemma {:induction false} AcceptPreservesInvariant(s: seq<Friendship>, id: Id, currentUserId: UserId, now: int)
    requires StoreInvariant(s)
    ensures StoreInvariant(AcceptRequest(s, id, currentUserId, now).records)
  {
    var out := AcceptRequest(s, id, currentUserId, now);
    if out.result.Ok? {
      var k :| 0 <= k < |s| && Holds(PendingRequest(id, currentUserId), s[k]) &&
               out.result.value == Accepted(s[k], now) && out.records == s[k := out.result.value];
      UpdateKeepsInvariant(s, k, out.result.value);
    }
  }

  /** Replacing one record by one with the same id, sender and receiver and
      a consistent acceptedAt keeps the table invariants. */
  lemma UpdateKeepsInvariant(s: seq<Friendship>, k: nat, v: Friendship)
    requires StoreInvariant(s) && k < |s|
    requires v.id == s[k].id && v.sender == s[k].sender && v.receiver == s[k].receiver
    requires v.acceptedAt.Some? <==> v.isAccepted
    ensures StoreInvariant(s[k := v])
  {
    var t := s[k := v];
    forall i | 0 <= i < |t|
      ensures t[i].id == s[i].id && t[i].sender == s[i].sender && t[i].receiver == s[i].receiver
      ensures t[i].acceptedAt.Some? <==> t[i].isAccepted
    {
    }
  }

  /** Positions after removing the element at `k`. */
  lemma RemovedAt(s: seq<Friendship>, k: nat)
    requires k < |s|
    ensures var t := s[..k] + s[k + 1..];
            && |t| == |s| - 1
            && (forall i :: 0 <= i < k ==> t[i] == s[i])
            && (forall i :: k <= i < |t| ==> t[i] == s[i + 1])
  {
  }

  lemma {:induction false} RefusePreservesInvariant(s: seq<Friendship>, id: Id, currentUserId: UserId)
    requires StoreInvariant(s)
    ensures StoreInvariant(RefuseRequest(s, id, currentUserId).records)
  {
    var out := RefuseRequest(s, id, currentUserId);
    if out.result.Ok? {
      var k :| 0 <= k < |s| && Holds(PendingRequest(id, currentUserId), s[k]) &&
               out.records == s[..k] + s[k + 1..];
      RemovedAt(s, k);
      var t := out.records;
      forall i, j | 0 <= i < j < |t|
        ensures t[i].id != t[j].id && !SamePair(t[i], t[j])
      {
        var i', j' := if i < k then i else i + 1, if j < k then j else j + 1;
        assert t[i] == s[i'] && t[j] == s[j'] && i' < j';
      }
      forall i | 0 <= i < |t|
        ensures t[i].sender != t[i].receiver && (t[i].acceptedAt.Some? <==> t[i].isAccepted)
      {
        assert t[i] == s[if i < k then i else i + 1];
      }
    }
  }

  /** Records stay in createdAt order when the clock does not run back. */
  lemma AddFriendKeepsCreatedOrder(
    s: seq<Friendship>, senderId: UserId, receiverId: UserId,
    friendshipType: Option<string>, freshId: Id, now: int)
    requires CreatedAscending(s)
    requires forall i :: 0 <= i < |s| ==> s[i].createdAt <= now
    ensures CreatedAscending(AddFriend(s, senderId, receiverId, friendshipType, freshId, now).records)
  {
    var out := AddFriend(s, senderId, receiverId, friendshipType, freshId, now);
    if out.result.Ok? {
      assert out.records[|s|].createdAt == now;
    }
  }

  /** acceptRequest keeps every createdAt, so the createdAt order too. */
  lemma {:induction false} AcceptKeepsCreatedOrder(s: seq<Friendship>, id: Id, currentUserId: UserId, now: int)
    requires CreatedAscending(s)
    ensures CreatedAscending(AcceptRequest(s, id, currentUserId, now).records)
  {
    var out := AcceptRequest(s, id, currentUserId, now);
    if out.result.Ok? {
      var k :| 0 <= k < |s| && Holds(PendingRequest(id, currentUserId), s[k]) &&
               out.result.value == Accepted(s[k], now) && out.records == s[k := out.result.value];
      assert forall i :: 0 <= i < |s| ==> out.records[i].createdAt == s[i].createdAt;
    }
  }

  /** refuseRequest deletes one record and keeps the others in order. */
  lemma {:induction false} RefuseKeepsCreatedOrder(s: seq<Friendship>, id: Id, currentUserId: UserId)
    requires CreatedAscending(s)
    ensures CreatedAscending(RefuseRequest(s, id, currentUserId).records)
  {
    var out := RefuseRequest(s, id, currentUserId);
    if out.result.Ok? {
      var k :| 0 <= k < |s| && Holds(PendingRequest(id, currentUserId), s[k]) &&
               out.records == s[..k] + s[k + 1..];
      RemovedAt(s, k);
      var t := out.records;
      forall i, j | 0 <= i < j < |t| ensures t[i].createdAt <= t[j].createdAt {
        var i', j' := if i < k then i else i + 1, if j < k then j else j + 1;
        assert t[i] == s[i'] && t[j] == s[j'] && i' < j';
      }
    }
  }

  // ---------------------------------------------------------------------
  // Effects on the other records, and sequences of operations

  /** acceptRequest touches the record `id` alone, and on it changes only
      isAccepted and acceptedAt: sender, receiver, type and creation time
      stay. */
  lemma {:induction false} AcceptChangesOnlyTarget(s: seq<Friendship>, id: Id, currentUserId: UserId, now: int)
    requires UniqueIds(s)
    ensures var out := AcceptRequest(s, id, currentUserId, now);
            && |out.records| == |s|
            && forall i :: 0 <= i < |s| ==>
                 out.records[i] == (if out.result.Ok? && s[i].id == id then Accepted(s[i], now) else s[i])
  {
    var out := AcceptRequest(s, id, currentUserId, now);
    if out.result.Ok? {
      var k :| 0 <= k < |s| && Holds(PendingRequest(id, currentUserId), s[k]) &&
               out.result.value == Accepted(s[k], now) && out.records == s[k := out.result.value];
      forall i | 0 <= i < |s| && i != k ensures s[i].id != id {
        if i < k { assert s[i].id != s[k].id; } else { assert s[k].id != s[i].id; }
      }
    }
  }

  /** refuseRequest removes exactly the record `id` and nothing else. */
  lemma {:induction false} RefuseRemovesExactlyTarget(s: seq<Friendship>, id: Id, currentUserId: UserId)
    requires UniqueIds(s)
    ensures var out := RefuseRequest(s, id, currentUserId);
            out.result.Ok? ==> forall x :: x in out.records <==> x in s && x.id != id
  {
    var out := RefuseRequest(s, id, currentUserId);
    if out.result.Ok? {
      var k :| 0 <= k < |s| && Holds(PendingRequest(id, currentUserId), s[k]) &&
               out.records == s[..k] + s[k + 1..];
      RemovedAt(s, k);
      var t := out.records;
      forall x | x in t ensures x in s && x.id != id {
        var i :| 0 <= i < |t| && t[i] == x;
        var j := if i < k then i else i + 1;
        assert s[j] == x && j != k;
        if j < k { assert s[j].id != s[k].id; } else { assert s[k].id != s[j].id; }
      }
      forall x | x in s && x.id != id ensures x in t {
        var j :| 0 <= j < |s| && s[j] == x;
        assert j != k;
        if j < k { assert t[j] == x; } else { assert t[j - 1] == x; }
      }
    }
  }

  /** A request can be accepted once: a second accept of the same id, by
      anybody and at any time, fails with TargetNotExist and changes
      nothing. */
  lemma {:induction false} SecondAcceptFails(
    s: seq<Friendship>, id: Id, currentUserId: UserId, now: int, otherUserId: UserId, later: int)
    requires UniqueIds(s)
    requires AcceptRequest(s, id, currentUserId, now).result.Ok?
    ensures var t := AcceptRequest(s, id, currentUserId, now).records;
            AcceptRequest(t, id, otherUserId, later) == Step(Err(TargetNotExist), t)
  {
    AcceptChangesOnlyTarget(s, id, currentUserId, now);
    var t := AcceptRequest(s, id, currentUserId, now).records;
    forall i | 0 <= i < |t| ensures !(t[i].id == id && t[i].receiver == otherUserId && !t[i].isAccepted) {
    }
  }

  /** Once refused, a request is gone: getFriendshipInfo on its id fails
      for every user. */
  lemma {:induction false} RefusedIsGone(s: seq<Friendship>, id: Id, currentUserId: UserId, anyUserId: UserId)
    requires UniqueIds(s)
    requires RefuseRequest(s, id, currentUserId).result.Ok?
    ensures GetFriendshipInfo(RefuseRequest(s, id, currentUserId).records, id, anyUserId) == Err(TargetNotExist)
  {
    RefuseRemovesExactlyTarget(s, id, currentUserId);
    var t := RefuseRequest(s, id, currentUserId).records;
    forall i | 0 <= i < |t| ensures t[i].id != id {
      assert t[i] in t;
    }
  }

  /** getFriendshipInfo still finds an accepted request for its receiver,
      and shows it accepted. */
  lemma {:induction false} AcceptedStillVisible(s: seq<Friendship>, id: Id, currentUserId: UserId, now: int)
    requires UniqueIds(s)
    requires AcceptRequest(s, id, currentUserId, now).result.Ok?
    ensures var out := AcceptRequest(s, id, currentUserId, now);
            GetFriendshipInfo(out.records, id, currentUserId) == Ok(out.result.value)
  {
    AcceptChangesOnlyTarget(s, id, currentUserId, now);
    var out := AcceptRequest(s, id, currentUserId, now);
    var k :| 0 <= k < |s| && Holds(PendingRequest(id, currentUserId), s[k]) &&
             out.result.value == Accepted(s[k], now) && out.records == s[k := out.result.value];
    assert out.records[k].id == id && out.records[k].receiver == currentUserId;
    var j := FindOne(out.records, ReceivedBy(id, currentUserId)).value;
    assert out.records[j].id == s[j].id == id;
    assert j == k;
  }

  /** u1 asks u2, u2 accepts: both now list the friendship on page 1 of
      their friend lists, and u2 has no pending request left. */
  lemma RequestAcceptedScenario(now: int, later: int)
    ensures var added := AddFriend([], "u1", "u2", None, 0, now);
            var accepted := AcceptRequest(added.records, 0, "u2", later);
            && added.result == Ok(Friendship(0, "u1", "u2", FRIEND, false, now, None))
            && accepted.result == Ok(Friendship(0, "u1", "u2", FRIEND, true, now, Some(later)))
            && accepted.result.value in GetFriendListWithPagination(accepted.records, "u1", None, None).friendList
            && accepted.result.value in GetFriendListWithPagination(accepted.records, "u2", None, None).friendList
            && GetFriendRequestsWithPagination(accepted.records, "u2", None, None).totalRequests == 0
  {
    var added := AddFriend([], "u1", "u2", None, 0, now);
    var accepted := AcceptRequest(added.records, 0, "u2", later);
    assert Holds(PendingRequest(0, "u2"), added.records[0]);
    var t := accepted.records;
    assert t == [Friendship(0, "u1", "u2", FRIEND, true, now, Some(later))];
    EveryFriendListed(t, "u1", DefaultLimit, t[0]);
    EveryFriendListed(t, "u2", DefaultLimit, t[0]);
  }
}
