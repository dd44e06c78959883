/** FriendService over an in-memory friendship table: `records` holds the
    table in insertion order and `nextId` is the next id the store hands
    out. Each mutating method updates the table in place and is proved
    against the transition function of the same name; the read-only
    methods leave the table alone. */
module Service {
  import opened FriendModel
  import Transitions = FriendTransitions
  import Queries = FriendQueries

  class FriendService {
    var records: seq<Friendship>
    var nextId: Id

    /** The table invariants, and every stored id is below `nextId`. */
    ghost predicate Valid()
      reads this
    {
      && StoreInvariant(records)
      && forall i :: 0 <= i < |records| ==> records[i].id < nextId
    }

    constructor ()
      ensures Valid() && records == [] && nextId == 0
    {
      records := [];
      nextId := 0;
    }

    /** addFriend: BadRequest for a self-request, TargetAlreadyExists when
        the duplicate check matches, otherwise one pending record under a
        fresh id is appended and returned. */
    method AddFriend(currentUserId: UserId, receiverId: UserId, friendshipType: Option<string>, now: int)
      returns (r: Result<Friendship>)
      requires Valid()
      modifies this
      ensures Valid()
      ensures var out := Transitions.AddFriend(old(records), currentUserId, receiverId, friendshipType, old(nextId), now);
              r == out.result && records == out.records
      ensures r.Ok? ==> r.value.id !in Ids(old(records)) && nextId == old(nextId) + 1
      ensures r.Err? ==> records == old(records) && nextId == old(nextId)
    {
      if currentUserId == receiverId {
        return Err(BadRequest);
      }
      var existing := FindOne(records, ExistingBetween(currentUserId, receiverId));
      if existing.Some? {
        return Err(TargetAlreadyExists);
      }
      var friendship := Friendship(nextId, currentUserId, receiverId,
                                   Transitions.TypeOrDefault(friendshipType), false, now, None);
      Transitions.AddFriendPreservesInvariant(records, currentUserId, receiverId, friendshipType, nextId, now);
      records := records + [friendship];
      nextId := nextId + 1;
      r := Ok(friendship);
    }

    /** acceptRequest: the pending request `id` addressed to the current
        user becomes accepted at `now`; otherwise TargetNotExist. */
    method AcceptRequest(id: Id, currentUserId: UserId, now: int) returns (r: Result<Friendship>)
      requires Valid()
      modifies this
      ensures Valid() && nextId == old(nextId)
      ensures var out := Transitions.AcceptRequest(old(records), id, currentUserId, now);
              r == out.result && records == out.records
      ensures |records| == |old(records)|
      ensures forall i :: 0 <= i < |records| ==>
                records[i] == (if r.Ok? && old(records)[i].id == id
                               then Transitions.Accepted(old(records)[i], now) else old(records)[i])
    {
      Transitions.AcceptChangesOnlyTarget(records, id, currentUserId, now);
      Transitions.AcceptPreservesInvariant(records, id, currentUserId, now);
      var found := FindOne(records, PendingRequest(id, currentUserId));
      if found.None? {
        return Err(TargetNotExist);
      }
      var k := found.value;
      var friendRequest := records[k];
      friendRequest := friendRequest.(isAccepted := true);
      friendRequest := friendRequest.(acceptedAt := Some(now));
      records := records[k := friendRequest];
      r := Ok(friendRequest);
    }

    /** refuseRequest: the pending request `id` addressed to the current
        user is deleted; otherwise TargetNotExist. */
    method RefuseRequest(id: Id, currentUserId: UserId) returns (r: Result<()>)
      requires Valid()
      modifies this
      ensures Valid() && nextId == old(nextId)
      ensures var out := Transitions.RefuseRequest(old(records), id, currentUserId);
              r == out.result && records == out.records
      ensures r.Ok? ==> forall x :: x in records <==> x in old(records) && x.id != id
    {
      Transitions.RefuseRemovesExactlyTarget(records, id, currentUserId);
      Transitions.RefusePreservesInvariant(records, id, currentUserId);
      var found := FindOne(records, PendingRequest(id, currentUserId));
      if found.None? {
        return Err(TargetNotExist);
      }
      var k := found.value;
      records := records[..k] + records[k + 1..];
      r := Ok(());
    }

    /** getFriendshipInfo: reads the table and changes nothing. */
    method GetFriendshipInfo(id: Id, currentUserId: UserId) returns (r: Result<Friendship>)
      ensures r.Ok? <==> exists i :: 0 <= i < |records| && records[i].id == id && records[i].receiver == currentUserId
      ensures r.Ok? ==> r.value in records && r.value.id == id && r.value.receiver == currentUserId
      ensures r.Err? ==> r.error == TargetNotExist
    {
      r := Queries.GetFriendshipInfo(records, id, currentUserId);
    }

    /** getFriendRequestsWithPagination: reads the table and changes nothing. */
    method GetFriendRequestsWithPagination(id: UserId, page: Option<int>, limit: Option<int>)
      returns (r: Queries.RequestsEnvelope)
      requires page.GetOr(Queries.DefaultPage) >= 1 && limit.GetOr(Queries.DefaultLimit) >= 1
      ensures r == Queries.GetFriendRequestsWithPagination(records, id, page, limit)
    {
      r := Queries.GetFriendRequestsWithPagination(records, id, page, limit);
    }

    /** getFriendListWithPagination: reads the table and changes nothing. */
    method GetFriendListWithPagination(id: UserId, page: Option<int>, limit: Option<int>)
      returns (r: Queries.FriendsEnvelope)
      requires page.GetOr(Queries.DefaultPage) >= 1 && limit.GetOr(Queries.DefaultLimit) >= 1
      ensures r == Queries.GetFriendListWithPagination(records, id, page, limit)
    {
      r := Queries.GetFriendListWithPagination(records, id, page, limit);
    }
  }

  /** A request's life cycle run against the service object: u1 asks u2,
      a self-request fails, u2 accepts, a second accept and a refuse of the
      accepted record fail, and u1's friend list holds the friendship. */
  method RequestLifecycle(now: int, later: int)
    returns (accepted: Result<Friendship>, again: Result<Friendship>, list: Queries.FriendsEnvelope)
    ensures accepted == Ok(Friendship(0, "u1", "u2", FRIEND, true, now, Some(later)))
    ensures again == Err(TargetNotExist)
    ensures list.totalFriends == 1 && accepted.value in list.friendList
  {
    var service := new FriendService();
    var request := Friendship(0, "u1", "u2", FRIEND, false, now, None);
    var added := service.AddFriend("u1", "u2", None, now);
    assert added == Ok(request) && service.records == [request];
    var self := service.AddFriend("u2", "u2", None, now);
    assert self == Err(BadRequest) && service.records == [request];
    assert FindOne(service.records, PendingRequest(0, "u2")) == Some(0);
    accepted := service.AcceptRequest(0, "u2", later);
    assert accepted == Ok(Transitions.Accepted(request, later));
    assert service.records == [accepted.value];
    again := service.AcceptRequest(0, "u2", later);
    assert service.records == [accepted.value];
    var refused := service.RefuseRequest(0, "u2");
    assert refused == Err(TargetNotExist) && service.records == [accepted.value];
    list := service.GetFriendListWithPagination("u1", None, None);
    Queries.SoleFriendListed(accepted.value, "u1");
  }
}
