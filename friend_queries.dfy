/** The read-only operations of the friend service: the two paginated
    listings and the lookup of one friendship by id. */
module FriendQueries {
  import opened FriendModel
  import opened Pagination

  /** Destructuring defaults of the listing payloads. */
  const DefaultPage: int := 1
  const DefaultLimit: int := 10

  datatype RequestsEnvelope = RequestsEnvelope(
    page: int, limit: int, totalRequests: nat, totalPages: nat, friendRequests: seq<Friendship>)

  datatype FriendsEnvelope = FriendsEnvelope(
    page: int, limit: int, totalFriends: nat, totalPages: nat, friendList: seq<Friendship>)

  lemma RequestsToPositions(s: seq<Friendship>, id: UserId)
    ensures MatchingPositions(s, RequestsTo(id)) ==
            set i: nat | i < |s| && s[i].receiver == id && !s[i].isAccepted
  {
  }

  lemma FriendsOfPositions(s: seq<Friendship>, id: UserId)
    ensures MatchingPositions(s, FriendsOf(id)) ==
            set i: nat | i < |s| && s[i].isAccepted && (s[i].sender == id || s[i].receiver == id)
  {
  }

  /** getFriendRequestsWithPagination({ id, page, limit }): pending requests
      addressed to `id`, newest first. */
  function GetFriendRequestsWithPagination(
    s: seq<Friendship>, id: UserId, page: Option<int>, limit: Option<int>): (r: RequestsEnvelope)
    requires page.GetOr(DefaultPage) >= 1 && limit.GetOr(DefaultLimit) >= 1
    ensures r.page == (if page.Some? then page.value else 1)
    ensures r.limit == (if limit.Some? then limit.value else 10)
    ensures forall x :: x in r.friendRequests ==> x in s && x.receiver == id && !x.isAccepted
    ensures r.totalRequests == 0 <==>
              forall i :: 0 <= i < |s| ==> !(s[i].receiver == id && !s[i].isAccepted)
    ensures r.totalRequests == |set i: nat | i < |s| && s[i].receiver == id && !s[i].isAccepted|
    ensures PageOf(NewestFirst(s, RequestsTo(id)), r.page, r.limit, r.friendRequests, r.totalRequests, r.totalPages)
  {
    var p := page.GetOr(DefaultPage);
    var l := limit.GetOr(DefaultLimit);
    var result := GetPaginatedResults(s, RequestsTo(id), p, l);
    RequestsToPositions(s, id);
    RequestsEnvelope(p, l, result.totalDocuments, result.totalPages, result.results)
  }

  /** getFriendListWithPagination({ id, page, limit }): accepted
      friendships in which `id` is the sender or the receiver, newest
      first. */
  function GetFriendListWithPagination(
    s: seq<Friendship>, id: UserId, page: Option<int>, limit: Option<int>): (r: FriendsEnvelope)
    requires page.GetOr(DefaultPage) >= 1 && limit.GetOr(DefaultLimit) >= 1
    ensures r.page == (if page.Some? then page.value else 1)
    ensures r.limit == (if limit.Some? then limit.value else 10)
    ensures forall x :: x in r.friendList ==>
              x in s && x.isAccepted && (x.sender == id || x.receiver == id)
    ensures r.totalFriends == 0 <==>
              forall i :: 0 <= i < |s| ==> !(s[i].isAccepted && (s[i].sender == id || s[i].receiver == id))
    ensures r.totalFriends ==
              |set i: nat | i < |s| && s[i].isAccepted && (s[i].sender == id || s[i].receiver == id)|
    ensures PageOf(NewestFirst(s, FriendsOf(id)), r.page, r.limit, r.friendList, r.totalFriends, r.totalPages)
  {
    var p := page.GetOr(DefaultPage);
    var l := limit.GetOr(DefaultLimit);
    var result := GetPaginatedResults(s, FriendsOf(id), p, l);
    FriendsOfPositions(s, id);
    FriendsEnvelope(p, l, result.totalDocuments, result.totalPages, result.results)
  }

  /** Every pending request to `id` is listed on some page of the
      friend-request listing. */
  lemma EveryRequestListed(s: seq<Friendship>, id: UserId, limit: int, x: Friendship)
    requires limit >= 1
    requires x in s && x.receiver == id && !x.isAccepted
    ensures exists page :: 1 <= page <= GetFriendRequestsWithPagination(s, id, None, Some(limit)).totalPages &&
                           x in GetFriendRequestsWithPagination(s, id, Some(page), Some(limit)).friendRequests
  {
    EveryMatchOnSomePage(s, RequestsTo(id), limit, x);
    var page :| 1 <= page <= GetPaginatedResults(s, RequestsTo(id), 1, limit).totalPages &&
                x in GetPaginatedResults(s, RequestsTo(id), page, limit).results;
    assert x in GetFriendRequestsWithPagination(s, id, Some(page), Some(limit)).friendRequests;
  }

  /** Every accepted friendship of `id`, in either role, is listed on some
      page of the friend listing. */
  lemma EveryFriendListed(s: seq<Friendship>, id: UserId, limit: int, x: Friendship)
    requires limit >= 1
    requires x in s && x.isAccepted && (x.sender == id || x.receiver == id)
    ensures exists page :: 1 <= page <= GetFriendListWithPagination(s, id, None, Some(limit)).totalPages &&
                           x in GetFriendListWithPagination(s, id, Some(page), Some(limit)).friendList
  {
    EveryMatchOnSomePage(s, FriendsOf(id), limit, x);
    var page :| 1 <= page <= GetPaginatedResults(s, FriendsOf(id), 1, limit).totalPages &&
                x in GetPaginatedResults(s, FriendsOf(id), page, limit).results;
    assert x in GetFriendListWithPagination(s, id, Some(page), Some(limit)).friendList;
  }

  /** On a table holding one accepted friendship of `id`, the first page
      of the friend list counts that one friend and lists it. */
  lemma SoleFriendListed(x: Friendship, id: UserId)
    requires x.isAccepted && (x.sender == id || x.receiver == id)
    ensures var r := GetFriendListWithPagination([x], id, None, None);
            r.totalFriends == 1 && r.totalPages == 1 && r.friendList == [x]
  {
    var selected := NewestFirst([x], FriendsOf(id));
    assert selected == [x] by {
      assert [x][..0] == [];
    }
    var r := GetFriendListWithPagination([x], id, None, None);
    assert r.page == 1 && r.limit == 10 && Skip(1, 10) == 0;
    assert r.totalFriends == 1 && |r.friendList| == 1;
    assert r.friendList[0] == selected[0];
    assert r.totalPages <= 1;
  }

  /** getFriendshipInfo({ id, currentUser }): the record `id`, but only
      when `currentUser` is its receiver, accepted or not. */
  function GetFriendshipInfo(s: seq<Friendship>, id: Id, currentUserId: UserId): (r: Result<Friendship>)
    ensures r.Ok? <==> exists i :: 0 <= i < |s| && s[i].id == id && s[i].receiver == currentUserId
    ensures r.Ok? ==> r.value in s && r.value.id == id && r.value.receiver == currentUserId
    ensures r.Err? ==> r.error == TargetNotExist
  {
    match FindOne(s, ReceivedBy(id, currentUserId))
    case Some(k) => Ok(s[k])
    case None => Err(TargetNotExist)
  }
}
