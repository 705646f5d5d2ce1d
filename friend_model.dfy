/** The two record shapes behind the friend handlers: a friend request with its
    status enum and default, a friendship, and the two unique indexes. */
module FriendModel {
  import opened Common

  /** Identity of a stored friend request (the database assigns it). */
  type RequestId = nat

  /** The status enum of a friend request. Being a datatype, a status is always
      one of the three values the schema admits. */
  datatype Status = Pending | Accepted | Declined

  datatype FriendRequest = FriendRequest(id: RequestId, sender: UserId, receiver: UserId, status: Status)

  datatype Friendship = Friendship(user1: UserId, user2: UserId)

  /** The string stored for a status. */
  function StatusName(s: Status): string
  {
    match s
    case Pending => "pending"
    case Accepted => "accepted"
    case Declined => "declined"
  }

  /** The schema's enum validation: a stored string is a status exactly when it
      is one of the three enum names. */
  function ParseStatus(name: string): (r: Option<Status>)
    ensures r.Some? <==> name in {"pending", "accepted", "declined"}
  {
    if name == "pending" then Some(Pending)
    else if name == "accepted" then Some(Accepted)
    else if name == "declined" then Some(Declined)
    else None
  }

  /** Parsing is the inverse of naming, in both directions. */
  lemma StatusNameRoundTrip(s: Status, name: string)
    ensures ParseStatus(StatusName(s)) == Some(s)
    ensures ParseStatus(name) == Some(s) ==> StatusName(s) == name
  {
  }

  /** A request created from a sender and a receiver only: the status takes its
      schema default. */
  function NewRequest(id: RequestId, sender: UserId, receiver: UserId): FriendRequest
  {
    FriendRequest(id, sender, receiver, Pending)
  }

  /** The unique index on (sender, receiver): no two requests share an ordered pair. */
  predicate RequestIndexUnique(rs: seq<FriendRequest>)
  {
    forall i, j :: 0 <= i < j < |rs| ==> !(rs[i].sender == rs[j].sender && rs[i].receiver == rs[j].receiver)
  }

  /** The unique index on (user1, user2): no two friendships share an ordered pair.
      The reversed orientation is not covered by the index. */
  predicate FriendshipIndexUnique(fs: seq<Friendship>)
  {
    forall i, j :: 0 <= i < j < |fs| ==> fs[i] != fs[j]
  }

  /** The index on ordered pairs does not exclude a reversed duplicate: a request
      a -> b and a request b -> a satisfy it together. */
  lemma IndexAllowsReversedRequests(a: UserId, b: UserId)
    requires a != b
    ensures RequestIndexUnique([NewRequest(0, a, b), NewRequest(1, b, a)])
  {
  }

  /** Likewise a friendship (a, b) and a friendship (b, a) satisfy their index. */
  lemma IndexAllowsReversedFriendships(a: UserId, b: UserId)
    requires a != b
    ensures FriendshipIndexUnique([Friendship(a, b), Friendship(b, a)])
  {
  }
}
