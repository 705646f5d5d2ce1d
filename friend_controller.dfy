/** The friend handlers: user search, sending a friend request, listing pending
    requests, answering a request, and listing friends. The request and friendship
    collections are an in-memory store; each handler checks its guards in the
    handler's order and either replies with an error and leaves the store alone,
    or replies with success and the new store. */
module FriendController {
  import opened Common
  import opened FriendModel

  // ---------------------------------------------------------------------------
  // Replies
  // ---------------------------------------------------------------------------

  /** The error replies of the friend handlers, in the order they are checked. */
  datatype FriendError =
    | QueryRequired      // search without a query
    | ReceiverRequired   // request without a receiver
    | SelfRequest        // request addressed to the sender
    | AlreadyFriends     // a friendship exists in either orientation
    | RequestExists      // a request of any status exists in either direction
    | FieldsRequired     // answer without a request id or an action
    | RequestNotFound    // no pending request with that id addressed to the caller

  /** The HTTP status of an error reply. */
  function ErrorStatus(e: FriendError): nat
  {
    if e == RequestNotFound then 404 else 400
  }

  /** The message of an error reply. */
  function ErrorMessage(e: FriendError): string
  {
    match e
    case QueryRequired => "Search query is required"
    case ReceiverRequired => "Receiver ID is required"
    case SelfRequest => "Cannot send friend request to yourself"
    case AlreadyFriends => "Already friends"
    case RequestExists => "Friend request already exists"
    case FieldsRequired => "Request ID and action are required"
    case RequestNotFound => "Friend request not found"
  }

  /** A handler's reply: a success status with its body, or an error. */
  datatype Result<+T> = Success(status: nat, value: T) | Failure(error: FriendError)

  const OK: nat := 200
  const CREATED: nat := 201

  /** The HTTP status of a reply. */
  function ReplyStatus<T>(r: Result<T>): nat
  {
    match r
    case Success(status, _) => status
    case Failure(e) => ErrorStatus(e)
  }

  /** The message of a successful friend request. */
  const RequestSent: string := "Friend request sent successfully"

  // ---------------------------------------------------------------------------
  // searchUsers
  // ---------------------------------------------------------------------------

  /** The fields of a user that a search returns. */
  datatype User = User(id: UserId, username: string, email: string, profilePic: string)

  /** The search returns at most this many users. */
  const SearchLimit: nat := 10

  /** A user the search may return: anybody but the caller whose username or
      email matches the query. `matches` stands for the case-insensitive regular
      expression match of the database query. */
  predicate SearchHit(u: User, me: UserId, query: string, matches: (string, string) -> bool)
  {
    u.id != me && (matches(query, u.username) || matches(query, u.email))
  }

  /** Every hit of the search, in collection order. */
  function Hits(users: seq<User>, me: UserId, query: string, matches: (string, string) -> bool): (out: seq<User>)
    ensures forall u :: u in out <==> u in users && SearchHit(u, me, query, matches)
    ensures |out| <= |users|
  {
    if users == [] then []
    else (if SearchHit(users[0], me, query, matches) then [users[0]] else [])
         + Hits(users[1..], me, query, matches)
  }

  /** The search handler: a missing or empty query is a 400 error; otherwise the
      first hits in collection order, at most `SearchLimit` of them. */
  function SearchUsers(users: seq<User>, me: UserId, query: Option<string>, matches: (string, string) -> bool): (r: Result<seq<User>>)
    ensures r == Failure(QueryRequired) <==> !Present(query)
    ensures r.Success? ==> r.status == OK && |r.value| <= SearchLimit
    ensures r.Success? ==> forall u :: u in r.value ==> u in users && u.id != me && SearchHit(u, me, query.value, matches)
  {
    if !Present(query) then Failure(QueryRequired)
    else
      var hits := Hits(users, me, query.value, matches);
      Success(OK, if |hits| <= SearchLimit then hits else hits[..SearchLimit])
  }

  /** The limit cuts only what exceeds it: the search returns exactly the first
      `SearchLimit` hits, or all of them when there are no more. */
  lemma SearchReturnsFirstHits(users: seq<User>, me: UserId, query: Option<string>, matches: (string, string) -> bool)
    requires Present(query)
    ensures var hits := Hits(users, me, query.value, matches);
            var r := SearchUsers(users, me, query, matches);
            && r.Success?
            && |r.value| == (if |hits| <= SearchLimit then |hits| else SearchLimit)
            && r.value == hits[..|r.value|]
            && (|hits| <= SearchLimit ==> forall u :: u in users && SearchHit(u, me, query.value, matches) ==> u in r.value)
  {
  }

  /** The search replies 400 with its message exactly for a missing or empty
      query, and 200 otherwise. */
  lemma SearchReplies(users: seq<User>, me: UserId, query: Option<string>, matches: (string, string) -> bool)
    ensures var r := SearchUsers(users, me, query, matches);
            && (ReplyStatus(r) == 400 <==> !Present(query))
            && (ReplyStatus(r) == OK <==> Present(query))
            && (r.Failure? ==> ErrorMessage(r.error) == "Search query is required")
  {
  }

  // ---------------------------------------------------------------------------
  // The store
  // ---------------------------------------------------------------------------

  /** The request collection, the friendship collection, and the next request id
      the database would hand out. */
  datatype Store = Store(requests: seq<FriendRequest>, friendships: seq<Friendship>, nextId: RequestId)

  /** The outcome of a handler: the store afterwards and the reply. */
  datatype Step<+T> = Step(store: Store, reply: Result<T>)

  /** Request r links a and b, in either direction. */
  predicate Links(r: FriendRequest, a: UserId, b: UserId)
  {
    (r.sender == a && r.receiver == b) || (r.sender == b && r.receiver == a)
  }

  /** Friendship f joins a and b, in either orientation. */
  predicate Joins(f: Friendship, a: UserId, b: UserId)
  {
    (f.user1 == a && f.user2 == b) || (f.user1 == b && f.user2 == a)
  }

  /** The friendship query of sendFriendRequest: a friendship in either orientation. */
  predicate FriendshipBetween(fs: seq<Friendship>, a: UserId, b: UserId)
  {
    exists f :: f in fs && Joins(f, a, b)
  }

  /** The request query of sendFriendRequest: a request of any status, either direction. */
  predicate RequestBetween(rs: seq<FriendRequest>, a: UserId, b: UserId)
  {
    exists r :: r in rs && Links(r, a, b)
  }

  /** Some request a -> b was accepted. */
  predicate AcceptedFrom(rs: seq<FriendRequest>, a: UserId, b: UserId)
  {
    exists r :: r in rs && r.sender == a && r.receiver == b && r.status == Accepted
  }

  // The invariants the handlers keep.

  /** Every request has distinct endpoints and an id already handed out. */
  ghost predicate RequestsWellFormed(st: Store)
  {
    forall r :: r in st.requests ==> r.sender != r.receiver && r.id < st.nextId
  }

  /** Request ids are distinct, and no two requests link the same unordered pair. */
  ghost predicate OneRequestPerPair(rs: seq<FriendRequest>)
  {
    forall i, j :: 0 <= i < j < |rs| ==> rs[i].id != rs[j].id && !Links(rs[j], rs[i].sender, rs[i].receiver)
  }

  /** Nobody is their own friend. */
  ghost predicate FriendshipsWellFormed(fs: seq<Friendship>)
  {
    forall f :: f in fs ==> f.user1 != f.user2
  }

  /** No two friendships join the same unordered pair. */
  ghost predicate OneFriendshipPerPair(fs: seq<Friendship>)
  {
    forall i, j :: 0 <= i < j < |fs| ==> !Joins(fs[j], fs[i].user1, fs[i].user2)
  }

  /** Friendships and accepted requests correspond one to one: there is a
      friendship (a, b) exactly when a request a -> b was accepted. */
  ghost predicate FriendshipsAreAccepted(st: Store)
  {
    && (forall f :: f in st.friendships ==> AcceptedFrom(st.requests, f.user1, f.user2))
    && (forall r :: r in st.requests && r.status == Accepted ==> Friendship(r.sender, r.receiver) in st.friendships)
  }

  ghost predicate Invariant(st: Store)
  {
    && RequestsWellFormed(st)
    && OneRequestPerPair(st.requests)
    && FriendshipsWellFormed(st.friendships)
    && OneFriendshipPerPair(st.friendships)
    && FriendshipsAreAccepted(st)
  }

  /** The controller's invariant implies the schema's two unique indexes, so in a
      sequential run neither index ever rejects an insert. */
  lemma InvariantImpliesIndexes(st: Store)
    requires Invariant(st)
    ensures RequestIndexUnique(st.requests)
    ensures FriendshipIndexUnique(st.friendships)
  {
  }

  /** What the unique indexes let through, the controller's invariant excludes:
      a request a -> b next to a request b -> a, and the friendships (a, b) and
      (b, a) side by side. */
  lemma InvariantExcludesReversedPairs(a: UserId, b: UserId)
    requires a != b
    ensures !OneRequestPerPair([NewRequest(0, a, b), NewRequest(1, b, a)])
    ensures !OneFriendshipPerPair([Friendship(a, b), Friendship(b, a)])
  {
    var rs := [NewRequest(0, a, b), NewRequest(1, b, a)];
    assert Links(rs[1], rs[0].sender, rs[0].receiver);
    var fs := [Friendship(a, b), Friendship(b, a)];
    assert Joins(fs[1], fs[0].user1, fs[0].user2);
  }

  // ---------------------------------------------------------------------------
  // sendFriendRequest
  // ---------------------------------------------------------------------------

  /** The request handler: rejects a missing receiver, the caller themself, an
      existing friendship and an existing request; otherwise adds one pending
      request from the caller to the receiver with a fresh id. */
  function Send(st: Store, me: UserId, receiverId: Option<string>): (out: Step<string>)
    ensures out.reply.Failure? ==> out.store == st
    ensures out.reply.Success? <==>
              && Present(receiverId)
              && receiverId.value != me
              && !FriendshipBetween(st.friendships, me, receiverId.value)
              && !RequestBetween(st.requests, me, receiverId.value)
    ensures out.reply.Success? ==>
              && out.reply.status == CREATED
              && out.reply.value == RequestSent
              && out.store.friendships == st.friendships
              && out.store.nextId == st.nextId + 1
              && |out.store.requests| == |st.requests| + 1
              && out.store.requests[..|st.requests|] == st.requests
              && out.store.requests[|st.requests|] == FriendRequest(st.nextId, me, receiverId.value, Pending)
  {
    if !Present(receiverId) then Step(st, Failure(ReceiverRequired))
    else if receiverId.value == me then Step(st, Failure(SelfRequest))
    else if FriendshipBetween(st.friendships, me, receiverId.value) then Step(st, Failure(AlreadyFriends))
    else if RequestBetween(st.requests, me, receiverId.value) then Step(st, Failure(RequestExists))
    else
      var request := NewRequest(st.nextId, me, receiverId.value);
      Step(Store(st.requests + [request], st.friendships, st.nextId + 1), Success(CREATED, RequestSent))
  }

  /** Which error the request handler returns, guard by guard in the handler's order. */
  lemma SendRejections(st: Store, me: UserId, receiverId: Option<string>)
    ensures var reply := Send(st, me, receiverId).reply;
            && (reply == Failure(ReceiverRequired) <==> !Present(receiverId))
            && (reply == Failure(SelfRequest) <==> Present(receiverId) && receiverId.value == me)
            && (reply == Failure(AlreadyFriends) <==>
                  Present(receiverId) && receiverId.value != me && FriendshipBetween(st.friendships, me, receiverId.value))
            && (reply == Failure(RequestExists) <==>
                  && Present(receiverId) && receiverId.value != me
                  && !FriendshipBetween(st.friendships, me, receiverId.value)
                  && RequestBetween(st.requests, me, receiverId.value))
  {
  }

  /** The status and message of each reply of the request handler: 201 on
      success, 400 with the failed guard's message otherwise. */
  lemma SendReplies(st: Store, me: UserId, receiverId: Option<string>)
    ensures var reply := Send(st, me, receiverId).reply;
            && (ReplyStatus(reply) == CREATED <==> reply.Success?)
            && (ReplyStatus(reply) == 400 <==> reply.Failure?)
            && (reply.Success? ==> reply.value == "Friend request sent successfully")
            && (!Present(receiverId) ==> ErrorMessage(reply.error) == "Receiver ID is required")
            && (Present(receiverId) && receiverId.value == me ==>
                  ErrorMessage(reply.error) == "Cannot send friend request to yourself")
            && (Present(receiverId) && receiverId.value != me && FriendshipBetween(st.friendships, me, receiverId.value) ==>
                  ErrorMessage(reply.error) == "Already friends")
            && (reply == Failure(RequestExists) ==> ErrorMessage(reply.error) == "Friend request already exists")
  {
    SendRejections(st, me, receiverId);
  }

  /** Once any request, of any status, links two users, neither of them can send
      the other a request: a declined request blocks re-sending in both
      directions. (No handler removes a request; see RespondKeepsRequests.) */
  lemma AnyRequestBlocksResend(st: Store, r: FriendRequest, a: UserId, b: UserId)
    requires r in st.requests && Links(r, a, b)
    ensures Send(st, a, Some(b)).reply.Failure?
    ensures Send(st, b, Some(a)).reply.Failure?
    ensures Send(st, a, Some(b)).store == st && Send(st, b, Some(a)).store == st
  {
  }

  /** Under the invariant a friendship always comes with a request between the
      same users, so the friendship guard only changes which error is returned. */
  lemma FriendshipImpliesRequest(st: Store, a: UserId, b: UserId)
    requires Invariant(st)
    requires FriendshipBetween(st.friendships, a, b)
    ensures RequestBetween(st.requests, a, b)
  {
  }

  /** The request handler keeps the invariant. */
  lemma SendPreservesInvariant(st: Store, me: UserId, receiverId: Option<string>)
    requires Invariant(st)
    ensures Invariant(Send(st, me, receiverId).store)
  {
    var out := Send(st, me, receiverId);
    if out.reply.Success? {
      var rs, rs' := st.requests, out.store.requests;
      var n := |rs|;
      forall i, j | 0 <= i < j < |rs'|
        ensures rs'[i].id != rs'[j].id && !Links(rs'[j], rs'[i].sender, rs'[i].receiver)
      {
        assert rs'[i] == rs[i] && rs[i] in rs;
        if j < n {
          assert rs'[j] == rs[j];
        }
      }
      forall f | f in out.store.friendships
        ensures AcceptedFrom(rs', f.user1, f.user2)
      {
        var r :| r in rs && r.sender == f.user1 && r.receiver == f.user2 && r.status == Accepted;
        assert r in rs';
      }
    }
  }

  // ---------------------------------------------------------------------------
  // getFriendRequests
  // ---------------------------------------------------------------------------

  /** The pending requests addressed to `me`, in collection order. */
  function PendingRequests(rs: seq<FriendRequest>, me: UserId): (out: seq<FriendRequest>)
    ensures forall r :: r in out <==> r in rs && r.receiver == me && r.status == Pending
    ensures |out| <= |rs|
  {
    if rs == [] then []
    else (if rs[0].receiver == me && rs[0].status == Pending then [rs[0]] else [])
         + PendingRequests(rs[1..], me)
  }

  /** The list-requests handler. */
  function GetFriendRequests(st: Store, me: UserId): (r: Result<seq<FriendRequest>>)
    ensures r.Success? && r.status == OK
    ensures forall q :: q in r.value <==> q in st.requests && q.receiver == me && q.status == Pending
  {
    Success(OK, PendingRequests(st.requests, me))
  }

  // ---------------------------------------------------------------------------
  // respondToFriendRequest
  // ---------------------------------------------------------------------------

  /** Request r is the one the answer handler looks for. */
  predicate PendingTo(r: FriendRequest, id: RequestId, me: UserId)
  {
    r.id == id && r.receiver == me && r.status == Pending
  }

  /** The first request at or after k that is pending, has the id and is addressed to me. */
  function FindPendingFrom(rs: seq<FriendRequest>, id: RequestId, me: UserId, k: nat): (found: Option<nat>)
    requires k <= |rs|
    ensures found.Some? ==> k <= found.value < |rs| && PendingTo(rs[found.value], id, me)
    ensures found.Some? ==> forall j :: k <= j < found.value ==> !PendingTo(rs[j], id, me)
    ensures found.None? ==> forall j :: k <= j < |rs| ==> !PendingTo(rs[j], id, me)
    decreases |rs| - k
  {
    if k == |rs| then None
    else if PendingTo(rs[k], id, me) then Some(k)
    else FindPendingFrom(rs, id, me, k + 1)
  }

  /** The request query of the answer handler: the position of the first pending
      request with the id addressed to me, if any. */
  function FindPending(rs: seq<FriendRequest>, id: RequestId, me: UserId): (found: Option<nat>)
    ensures found.Some? ==> found.value < |rs| && PendingTo(rs[found.value], id, me)
    ensures found.None? <==> forall r :: r in rs ==> !PendingTo(r, id, me)
  {
    FindPendingFrom(rs, id, me, 0)
  }

  /** The new status an action sets: accepted exactly for "accept"; any other
      action declines. */
  function Decision(action: string): (s: Status)
    ensures s == Accepted <==> action == "accept"
    ensures s == Declined <==> action != "accept"
  {
    if action == "accept" then Accepted else Declined
  }

  /** The success message, naming the status the request now has. */
  function RespondMessage(s: Status): string
  {
    "Friend request " + StatusName(s) + " successfully"
  }

  /** The success message as the handler builds it: the action with "ed" appended. */
  function AsWrittenRespondMessage(action: string): string
  {
    "Friend request " + action + "ed successfully"
  }

  /** The two messages agree for "accept" but not for "decline", whose message
      the handler spells "declineed"; for any other action it names the action,
      not the status the request was given. */
  lemma DeclineMessageMisspelled()
    ensures AsWrittenRespondMessage("accept") == RespondMessage(Decision("accept"))
    ensures AsWrittenRespondMessage("decline") == "Friend request declineed successfully"
    ensures AsWrittenRespondMessage("decline") != RespondMessage(Decision("decline"))
  {
  }

  /** The answer handler: both fields are required; only a pending request with
      the id addressed to the caller is found; its status becomes the action's
      decision and, when accepted, the friendship (sender, receiver) is added. */
  function Respond(st: Store, me: UserId, requestId: Option<RequestId>, action: Option<string>): (out: Step<string>)
    ensures out.reply.Failure? ==> out.store == st
    ensures out.reply == Failure(FieldsRequired) <==> requestId.None? || !Present(action)
    ensures out.reply == Failure(RequestNotFound) <==>
              && requestId.Some? && Present(action)
              && forall r :: r in st.requests ==> !PendingTo(r, requestId.value, me)
    ensures out.reply.Success? ==>
              && out.reply.status == OK
              && out.store.nextId == st.nextId
              && exists i :: 0 <= i < |st.requests| && PendingTo(st.requests[i], requestId.value, me)
                   && out.store.requests == st.requests[i := st.requests[i].(status := Decision(action.value))]
                   && out.store.friendships ==
                        st.friendships + (if action.value == "accept"
                                          then [Friendship(st.requests[i].sender, st.requests[i].receiver)]
                                          else [])
  {
    if requestId.None? || !Present(action) then Step(st, Failure(FieldsRequired))
    else
      match FindPending(st.requests, requestId.value, me)
      case None => Step(st, Failure(RequestNotFound))
      case Some(i) =>
        var request := st.requests[i];
        var status := Decision(action.value);
        var requests := st.requests[i := request.(status := status)];
        var friendships :=
          if action.value == "accept" then st.friendships + [Friendship(request.sender, request.receiver)]
          else st.friendships;
        Step(Store(requests, friendships, st.nextId), Success(OK, RespondMessage(status)))
  }

  /** The status and message of each reply of the answer handler: 400 for a
      missing field, 404 when no pending request with the id is addressed to the
      caller, 200 on success. */
  lemma RespondReplies(st: Store, me: UserId, requestId: Option<RequestId>, action: Option<string>)
    ensures var reply := Respond(st, me, requestId, action).reply;
            && (ReplyStatus(reply) == 400 <==> requestId.None? || !Present(action))
            && (ReplyStatus(reply) == 404 <==>
                  && requestId.Some? && Present(action)
                  && forall r :: r in st.requests ==> !PendingTo(r, requestId.value, me))
            && (ReplyStatus(reply) == OK <==> reply.Success?)
            && (requestId.None? || !Present(action) ==>
                  ErrorMessage(reply.error) == "Request ID and action are required")
            && (reply == Failure(RequestNotFound) ==> ErrorMessage(reply.error) == "Friend request not found")
  {
  }

  /** On success the reply names the status the answered request now has. */
  lemma RespondMessageNamesNewStatus(st: Store, me: UserId, requestId: Option<RequestId>, action: Option<string>)
    requires Respond(st, me, requestId, action).reply.Success?
    ensures exists i :: 0 <= i < |st.requests| && PendingTo(st.requests[i], requestId.value, me)
              && Respond(st, me, requestId, action).store.requests[i].status == Decision(action.value)
              && Respond(st, me, requestId, action).reply.value == RespondMessage(Decision(action.value))
  {
  }

  /** The answer handler never removes a request nor changes its id or endpoints,
      and never removes a friendship. */
  lemma RespondKeepsRequests(st: Store, me: UserId, requestId: Option<RequestId>, action: Option<string>)
    ensures var st' := Respond(st, me, requestId, action).store;
            && |st'.requests| == |st.requests|
            && (forall k :: 0 <= k < |st.requests| ==>
                  st'.requests[k].id == st.requests[k].id
                  && st'.requests[k].sender == st.requests[k].sender
                  && st'.requests[k].receiver == st.requests[k].receiver)
            && st'.friendships[..|st.friendships|] == st.friendships
  {
  }

  /** Under the invariant, answering the same request a second time fails with
      404 and changes nothing: the request is no longer pending. */
  lemma RespondTwiceFails(st: Store, me: UserId, id: RequestId, first: Option<string>, second: Option<string>)
    requires Invariant(st)
    requires Respond(st, me, Some(id), first).reply.Success?
    requires Present(second)
    ensures var st' := Respond(st, me, Some(id), first).store;
            && Respond(st', me, Some(id), second).reply == Failure(RequestNotFound)
            && Respond(st', me, Some(id), second).store == st'
  {
  }

  /** After a removal-free update of one request's status, an accepted request
      other than the updated one is still there. */
  lemma AcceptedSurvivesUpdate(rs: seq<FriendRequest>, i: nat, s: Status, a: UserId, b: UserId)
    requires i < |rs| && rs[i].status == Pending
    requires AcceptedFrom(rs, a, b)
    ensures AcceptedFrom(rs[i := rs[i].(status := s)], a, b)
  {
    var r :| r in rs && r.sender == a && r.receiver == b && r.status == Accepted;
    var k :| 0 <= k < |rs| && rs[k] == r;
    assert k != i;
    assert rs[i := rs[i].(status := s)][k] == r;
  }

  /** Changing one request's status keeps every request's id and endpoints, so it
      keeps the request invariants. */
  lemma StatusUpdateKeepsRequestInvariants(st: Store, i: nat, s: Status)
    requires i < |st.requests|
    requires RequestsWellFormed(st) && OneRequestPerPair(st.requests)
    ensures var st' := st.(requests := st.requests[i := st.requests[i].(status := s)]);
            RequestsWellFormed(st') && OneRequestPerPair(st'.requests)
  {
  }

  /** Under the invariant no friendship joins the two users of a pending request:
      a friendship traces to an accepted request linking the same pair, and the
      pending request is the only one linking it. */
  lemma NoFriendshipForPending(st: Store, i: nat)
    requires Invariant(st)
    requires i < |st.requests| && st.requests[i].status == Pending
    ensures forall k :: 0 <= k < |st.friendships| ==>
              !Joins(st.friendships[k], st.requests[i].sender, st.requests[i].receiver)
  {
  }

  /** Appending a friendship for a pair no friendship joins keeps one friendship per pair. */
  lemma AppendKeepsOneFriendshipPerPair(fs: seq<Friendship>, nf: Friendship)
    requires OneFriendshipPerPair(fs)
    requires forall k :: 0 <= k < |fs| ==> !Joins(fs[k], nf.user1, nf.user2)
    ensures OneFriendshipPerPair(fs + [nf])
  {
  }

  /** The answer handler keeps the invariant. */
  lemma RespondPreservesInvariant(st: Store, me: UserId, requestId: Option<RequestId>, action: Option<string>)
    requires Invariant(st)
    ensures Invariant(Respond(st, me, requestId, action).store)
  {
    var out := Respond(st, me, requestId, action);
    if out.reply.Success? {
      var rs, fs := st.requests, st.friendships;
      var st' := out.store;
      var s := Decision(action.value);
      var i :| 0 <= i < |rs| && PendingTo(rs[i], requestId.value, me)
               && st'.requests == rs[i := rs[i].(status := s)]
               && st'.friendships == fs + (if action.value == "accept" then [Friendship(rs[i].sender, rs[i].receiver)] else []);
      var rs' := st'.requests;
      StatusUpdateKeepsRequestInvariants(st, i, s);
      assert fs <= st'.friendships;
      // Every old friendship still has its accepted request.
      forall f | f in fs ensures AcceptedFrom(rs', f.user1, f.user2) {
        AcceptedSurvivesUpdate(rs, i, s, f.user1, f.user2);
      }
      if action.value == "accept" {
        var nf := Friendship(rs[i].sender, rs[i].receiver);
        assert rs'[i] in rs' && rs'[i].sender == nf.user1 && rs'[i].receiver == nf.user2;
        assert AcceptedFrom(rs', nf.user1, nf.user2);
        assert rs[i] in rs;
        NoFriendshipForPending(st, i);
        AppendKeepsOneFriendshipPerPair(fs, nf);
      }
      // Every accepted request has its friendship.
      forall r | r in rs' && r.status == Accepted
        ensures Friendship(r.sender, r.receiver) in st'.friendships
      {
        var k :| 0 <= k < |rs'| && rs'[k] == r;
        if k != i {
          assert rs[k] == r;
        }
      }
    }
  }

  // ---------------------------------------------------------------------------
  // getFriends
  // ---------------------------------------------------------------------------

  /** Friendship f involves u. */
  predicate Involves(f: Friendship, u: UserId)
  {
    f.user1 == u || f.user2 == u
  }

  /** The other endpoint of a friendship, seen from `me`. */
  function Other(f: Friendship, me: UserId): (u: UserId)
    requires Involves(f, me)
    ensures Joins(f, me, u)
  {
    if f.user1 == me then f.user2 else f.user1
  }

  /** The friendship query of the list-friends handler: every friendship containing
      `me`, in collection order. */
  function Involving(fs: seq<Friendship>, me: UserId): (out: seq<Friendship>)
    ensures forall f :: f in out <==> f in fs && Involves(f, me)
    ensures |out| <= |fs|
  {
    if fs == [] then []
    else (if Involves(fs[0], me) then [fs[0]] else []) + Involving(fs[1..], me)
  }

  /** The list-friends handler: for each friendship containing `me`, the other
      endpoint, one entry per friendship. */
  function FriendsOf(fs: seq<Friendship>, me: UserId): (out: seq<UserId>)
    ensures |out| == |Involving(fs, me)|
    ensures forall u :: u in out <==> exists f :: f in fs && Involves(f, me) && Other(f, me) == u
  {
    var mine := Involving(fs, me);
    var out := seq(|mine|, k requires 0 <= k < |mine| => Other(mine[k], me));
    assert forall u :: u in out ==> exists f :: f in fs && Involves(f, me) && Other(f, me) == u by {
      forall u | u in out ensures exists f :: f in fs && Involves(f, me) && Other(f, me) == u {
        var k :| 0 <= k < |out| && out[k] == u;
        assert mine[k] in mine;
      }
    }
    assert forall f :: f in fs && Involves(f, me) ==> Other(f, me) in out by {
      forall f | f in fs && Involves(f, me) ensures Other(f, me) in out {
        var k :| 0 <= k < |mine| && mine[k] == f;
        assert out[k] == Other(f, me);
      }
    }
    out
  }

  /** Dropping the first friendship keeps one friendship per pair, and the first
      friendship joins no pair the others join. */
  lemma OnePerPairSplit(fs: seq<Friendship>)
    requires fs != [] && OneFriendshipPerPair(fs)
    ensures OneFriendshipPerPair(fs[1..])
    ensures forall g :: g in fs[1..] ==> !Joins(g, fs[0].user1, fs[0].user2)
  {
    var rest := fs[1..];
    forall i, j | 0 <= i < j < |rest| ensures !Joins(rest[j], rest[i].user1, rest[i].user2) {
      assert rest[i] == fs[i + 1] && rest[j] == fs[j + 1];
    }
    forall g | g in rest ensures !Joins(g, fs[0].user1, fs[0].user2) {
      var k :| 0 <= k < |rest| && rest[k] == g;
      assert fs[k + 1] == g;
    }
  }

  /** A friendship joining no pair of the list may be put in front of it. */
  lemma ConsKeepsOnePerPair(f: Friendship, tail: seq<Friendship>)
    requires OneFriendshipPerPair(tail)
    requires forall g :: g in tail ==> !Joins(g, f.user1, f.user2)
    ensures OneFriendshipPerPair([f] + tail)
  {
    var out := [f] + tail;
    forall i, j | 0 <= i < j < |out| ensures !Joins(out[j], out[i].user1, out[i].user2) {
      assert out[j] == tail[j - 1];
      if i == 0 {
        assert tail[j - 1] in tail;
      } else {
        assert out[i] == tail[i - 1];
      }
    }
  }

  /** The friendship filter keeps only friendships of the list, so it keeps the
      one-friendship-per-pair property. */
  lemma {:induction false} InvolvingKeepsOnePerPair(fs: seq<Friendship>, me: UserId)
    requires OneFriendshipPerPair(fs)
    ensures OneFriendshipPerPair(Involving(fs, me))
  {
    if fs != [] {
      OnePerPairSplit(fs);
      InvolvingKeepsOnePerPair(fs[1..], me);
      if Involves(fs[0], me) {
        ConsKeepsOnePerPair(fs[0], Involving(fs[1..], me));
      }
    }
  }

  /** Under the invariant the friends list holds no duplicate and not the caller. */
  lemma FriendsDistinct(st: Store, me: UserId)
    requires Invariant(st)
    ensures var out := FriendsOf(st.friendships, me);
            && me !in out
            && forall i, j :: 0 <= i < j < |out| ==> out[i] != out[j]
  {
    var mine := Involving(st.friendships, me);
    var out := FriendsOf(st.friendships, me);
    InvolvingKeepsOnePerPair(st.friendships, me);
    forall i, j | 0 <= i < j < |out| ensures out[i] != out[j] {
      assert mine[i] in mine && mine[j] in mine;
      assert out[i] == Other(mine[i], me) && out[j] == Other(mine[j], me);
      assert !Joins(mine[j], mine[i].user1, mine[i].user2);
    }
  }

  /** Friendship is symmetric: u is a friend of me exactly when me is a friend of u. */
  lemma FriendsSymmetric(st: Store, me: UserId, u: UserId)
    requires Invariant(st)
    ensures u in FriendsOf(st.friendships, me) <==> me in FriendsOf(st.friendships, u)
  {
  }

  /** Under the invariant the friends of `me` are exactly the users with whom an
      accepted request links `me`, in either direction. */
  lemma FriendsAreAcceptedRequests(st: Store, me: UserId, u: UserId)
    requires Invariant(st)
    ensures u in FriendsOf(st.friendships, me) <==>
            exists r :: r in st.requests && r.status == Accepted && Links(r, me, u)
  {
  }

  /** Accepting a request makes its two users friends of each other. */
  lemma AcceptMakesFriends(st: Store, me: UserId, id: RequestId)
    requires Invariant(st)
    requires Respond(st, me, Some(id), Some("accept")).reply.Success?
    ensures exists r :: r in st.requests && PendingTo(r, id, me)
              && r.sender in FriendsOf(Respond(st, me, Some(id), Some("accept")).store.friendships, me)
  {
    var st' := Respond(st, me, Some(id), Some("accept")).store;
    var i :| 0 <= i < |st.requests| && PendingTo(st.requests[i], id, me)
             && st'.friendships == st.friendships + [Friendship(st.requests[i].sender, st.requests[i].receiver)];
    var f := Friendship(st.requests[i].sender, st.requests[i].receiver);
    assert f in st'.friendships && Involves(f, me);
    assert Other(f, me) == st.requests[i].sender by {
      assert st.requests[i] in st.requests;
    }
    assert st.requests[i] in st.requests;
  }

  // ---------------------------------------------------------------------------
  // The store as the handlers update it
  // ---------------------------------------------------------------------------

  /** The request and friendship collections, updated in place by the two
      state-changing handlers. */
  class FriendStore {
    var requests: seq<FriendRequest>
    var friendships: seq<Friendship>
    var nextId: RequestId

    function Snapshot(): Store
      reads this
    {
      Store(requests, friendships, nextId)
    }

    ghost predicate Valid()
      reads this
    {
      Invariant(Snapshot())
    }

    constructor ()
      ensures Valid()
      ensures Snapshot() == Store([], [], 0)
    {
      requests, friendships, nextId := [], [], 0;
    }

    /** sendFriendRequest: check the guards in order, then insert one pending request. */
    method SendFriendRequest(me: UserId, receiverId: Option<string>) returns (reply: Result<string>)
      requires Valid()
      modifies this
      ensures Valid()
      ensures Step(Snapshot(), reply) == Send(old(Snapshot()), me, receiverId)
    {
      SendPreservesInvariant(Snapshot(), me, receiverId);
      if !Present(receiverId) {
        return Failure(ReceiverRequired);
      }
      var receiver: UserId := receiverId.value;
      if receiver == me {
        return Failure(SelfRequest);
      }
      if FriendshipBetween(friendships, me, receiver) {
        return Failure(AlreadyFriends);
      }
      if RequestBetween(requests, me, receiver) {
        return Failure(RequestExists);
      }
      var request := NewRequest(nextId, me, receiver);
      requests := requests + [request];
      nextId := nextId + 1;
      reply := Success(CREATED, RequestSent);
    }

    /** respondToFriendRequest: find the pending request, set its status in place,
        and insert the friendship when the action is "accept". */
    method RespondToFriendRequest(me: UserId, requestId: Option<RequestId>, action: Option<string>)
      returns (reply: Result<string>)
      requires Valid()
      modifies this
      ensures Valid()
      ensures Step(Snapshot(), reply) == Respond(old(Snapshot()), me, requestId, action)
    {
      RespondPreservesInvariant(Snapshot(), me, requestId, action);
      if requestId.None? || !Present(action) {
        return Failure(FieldsRequired);
      }
      var found := FindPending(requests, requestId.value, me);
      if found.None? {
        return Failure(RequestNotFound);
      }
      var i := found.value;
      var request := requests[i];
      var status := Decision(action.value);
      requests := requests[i := request.(status := status)];
      if action.value == "accept" {
        friendships := friendships + [Friendship(request.sender, request.receiver)];
      }
      reply := Success(OK, RespondMessage(status));
    }
  }
}
