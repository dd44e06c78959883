/** The friendship record kept by the friend service, the three error kinds
    its operations raise, and the filters its queries hand to the document
    store, each written as an explicit predicate over one record. */
module FriendModel {

  datatype Option<+T> = None | Some(value: T) {
    /** The value, or `default` when absent (a destructuring default). */
    function GetOr(default: T): T {
      match this
      case Some(v) => v
      case None => default
    }
  }

  type UserId = string

  /** Record identifier; the store hands out fresh ones. */
  type Id = nat

  /** Value of FRIENDSHIP.FRIEND, the type a request gets when none is given. */
  const FRIEND: string := "FRIEND"

  datatype Friendship = Friendship(
    id: Id,
    sender: UserId,
    receiver: UserId,
    friendshipType: string,
    isAccepted: bool,
    createdAt: int,
    acceptedAt: Option<int>)

  datatype Error = BadRequest | TargetAlreadyExists | TargetNotExist

  datatype Result<+T> = Ok(value: T) | Err(error: Error)

  /** The query objects the service builds. */
  datatype Filter =
      /** `{ receiver: id, isAccepted: false }` */
    | RequestsTo(user: UserId)
      /** `{ $or: [{ sender: id }, { receiver: id }], isAccepted: true }` */
    | FriendsOf(user: UserId)
      /** The duplicate check of addFriend as written: its second `$or`
          clause repeats the key `receiver`, and the last one wins, so it
          reads `{ receiver: senderId }`. */
    | ExistingBetween(senderId: UserId, receiverId: UserId)
      /** `{ _id: id, receiver: userId, isAccepted: false }` */
    | PendingRequest(id: Id, user: UserId)
      /** `{ _id: id, receiver: userId }` */
    | ReceivedBy(id: Id, user: UserId)

  /** The record `r` satisfies the query `f`. The duplicate check matches
      every record addressed to the sender, so it catches the reverse
      orientation of the pair and more; a listing of requests only matches
      pending records and the friend listing only accepted ones, so no
      record is on both; the id lookups match only the record with that id
      addressed to that user. */
  predicate Holds(f: Filter, r: Friendship): (b: bool)
    ensures f.ExistingBetween? && r.receiver == f.senderId ==> b
    ensures f.ExistingBetween? && r.sender == f.senderId && r.receiver == f.receiverId ==> b
    ensures f.ExistingBetween? && b ==>
              r.receiver == f.senderId || (r.sender == f.senderId && r.receiver == f.receiverId)
    ensures b && (f.RequestsTo? || f.PendingRequest?) ==> !r.isAccepted
    ensures b && f.RequestsTo? ==> r.receiver == f.user
    ensures b && f.FriendsOf? ==> r.isAccepted && (r.sender == f.user || r.receiver == f.user)
    ensures (f.RequestsTo? || f.FriendsOf?) && r.sender != f.user && r.receiver != f.user ==> !b
    ensures b && (f.PendingRequest? || f.ReceivedBy?) ==> r.id == f.id && r.receiver == f.user
  {
    match f
    case RequestsTo(u) => r.receiver == u && !r.isAccepted
    case FriendsOf(u) => (r.sender == u || r.receiver == u) && r.isAccepted
    case ExistingBetween(a, b) => (r.sender == a && r.receiver == b) || r.receiver == a
    case PendingRequest(id, u) => r.id == id && r.receiver == u && !r.isAccepted
    case ReceivedBy(id, u) => r.id == id && r.receiver == u
  }

  /** Some stored record satisfies `f`. */
  predicate AnyMatch(s: seq<Friendship>, f: Filter) {
    exists i :: 0 <= i < |s| && Holds(f, s[i])
  }

  /** `findOne(f)`: the position of the first record, in store order, that
      satisfies `f`. */
  function FindOne(s: seq<Friendship>, f: Filter): (r: Option<nat>)
    ensures r.None? <==> !AnyMatch(s, f)
    ensures r.Some? ==> r.value < |s| && Holds(f, s[r.value])
    ensures r.Some? ==> forall j :: 0 <= j < r.value ==> !Holds(f, s[j])
    decreases |s|
  {
    if |s| == 0 then None
    else if Holds(f, s[0]) then Some(0)
    else
      match FindOne(s[1..], f)
      case None =>
        assert forall i :: 1 <= i < |s| ==> s[i] == s[1..][i - 1];
        None
      case Some(k) => Some(k + 1)
  }

  function Ids(s: seq<Friendship>): set<Id> {
    set r | r in s :: r.id
  }

  predicate UniqueIds(s: seq<Friendship>) {
    forall i, j :: 0 <= i < j < |s| ==> s[i].id != s[j].id
  }

  predicate NoSelfRequests(s: seq<Friendship>) {
    forall i :: 0 <= i < |s| ==> s[i].sender != s[i].receiver
  }

  /** acceptedAt is set exactly on accepted records. */
  predicate AcceptedAtIffAccepted(s: seq<Friendship>) {
    forall i :: 0 <= i < |s| ==> (s[i].acceptedAt.Some? <==> s[i].isAccepted)
  }

  /** Two records join the same unordered pair of users. */
  predicate SamePair(a: Friendship, b: Friendship) {
    || (a.sender == b.sender && a.receiver == b.receiver)
    || (a.sender == b.receiver && a.receiver == b.sender)
  }

  predicate AtMostOnePerPair(s: seq<Friendship>) {
    forall i, j :: 0 <= i < j < |s| ==> !SamePair(s[i], s[j])
  }

  /** The invariants every operation keeps on the friendship table. */
  predicate StoreInvariant(s: seq<Friendship>) {
    UniqueIds(s) && NoSelfRequests(s) && AcceptedAtIffAccepted(s) && AtMostOnePerPair(s)
  }

  /** createdAt never decreases along insertion order. */
  predicate CreatedAscending(s: seq<Friendship>) {
    forall i, j :: 0 <= i < j < |s| ==> s[i].createdAt <= s[j].createdAt
  }

  predicate CreatedDescending(s: seq<Friendship>) {
    forall i, j :: 0 <= i < j < |s| ==> s[i].createdAt >= s[j].createdAt
  }
}
