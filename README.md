# Friend requests, friendships and direct messages of chat-ify, in Dafny

This project models the backend core of chat-ify, a small chat application. It covers the
friend-request state machine, the friendship graph that request answers build, and the
direct-message handlers.

- `common.dfy`, module `Common`: user identities and JavaScript truthiness of body fields.
  `Present(x)` is false for an absent field and for the empty string.
- `friend_model.dfy`, module `FriendModel`: the `FriendRequest` and `Friendship` record shapes.
  It also has the status enum (`pending`, `accepted`, `declined`), the `pending` default and
  the two unique indexes on ordered pairs.
- `friend_controller.dfy`, module `FriendController`: the five friend handlers.
  - The request and friendship collections form a `Store` value.
  - Each state-changing handler is a step function on that value (`Send`, `Respond`). It
    returns the new store and a reply: an HTTP success status with a body, or one of the
    handler's error cases.
  - The class `FriendStore` holds the two collections as fields. Its methods
    `SendFriendRequest` and `RespondToFriendRequest` check the guards in the handler's
    order and update the fields in place. Each method's `ensures` ties the new fields and
    the reply to the step function.
  - The query handlers (`SearchUsers`, `GetFriendRequests`, `FriendsOf`) are functions over
    the collections.
  - `Invariant` is what every handler keeps. Each request has distinct endpoints and a
    distinct id. At most one request links each unordered pair. Nobody is their own friend.
    At most one friendship joins each unordered pair. Friendships and accepted requests
    correspond one to one: a friendship (a, b) exists exactly when a request a -> b was
    accepted.
- `message_controller.dfy`, module `MessageController`: the sidebar list, the conversation
  filter and `sendMessage`.
  - The class `MessageStore` holds the stored messages. It also keeps an outbox of the
    real-time events sent.
  - `SendMessage` stores the message first. Then it emits `newMessage` on the receiver's
    connection only if the presence lookup finds one. It replies 201 either way.

Database queries (`find`, `findOne`, `save`) become filters over sequences and updates of
fields. The model returns query results in insertion order (see "## Left out").

Some collaborators live outside the two controllers or are calls to other services (`lib/socket.js`,
the image host, the regex engine, the users collection). Each becomes a parameter:
- The presence registry behind `getReceiverSocketId` is `presence: map<UserId, SocketId>`.
  `lib/socket.js` is not part of this model.
- The image upload is `upload: string -> string`, from image to URL.
- The case-insensitive regular-expression match of the user search is
  `matches: (string, string) -> bool`.
- The users collection searched by `searchUsers` is `users: seq<User>`.

Under the invariant, a friendship always comes with a request between the same two users
(`FriendshipImpliesRequest`). So the "Already friends" guard of `sendFriendRequest` can only
change which 400 error is returned. It never changes whether the request is refused.

## Model

| member | source | states |
|---|---|---|
| `FriendModel.ParseStatus` | backend/src/models/friend.model.js:15-19 | a stored string is a status exactly when it is one of the three enum names |
| `FriendModel.StatusNameRoundTrip` | backend/src/models/friend.model.js:15-19 | naming and parsing a status are inverse in both directions |
| `FriendModel.IndexAllowsReversedRequests` | backend/src/models/friend.model.js:41 | the request index is on ordered pairs: requests a -> b and b -> a together satisfy it |
| `FriendModel.IndexAllowsReversedFriendships` | backend/src/models/friend.model.js:44 | the friendship index is on ordered pairs: (a, b) and (b, a) together satisfy it |
| `FriendController.Hits` | backend/src/controllers/friend.controller.js:14-23 | a user is a hit exactly when it is in the collection, is not the caller, and its username or email matches the query |
| `FriendController.SearchUsers` | backend/src/controllers/friend.controller.js:9-24 | a missing or empty query, and only that, gives the 400 error; otherwise 200 with at most 10 users, none of them the caller, all of them hits |
| `FriendController.SearchReplies` | backend/src/controllers/friend.controller.js:9-26 | the search replies 400 with "Search query is required" exactly for a missing or empty query, and 200 otherwise |
| `FriendController.SearchReturnsFirstHits` | backend/src/controllers/friend.controller.js:14-24 | the search returns exactly the first min(10, number of hits) hits in collection order; when there are at most 10 hits, every hit is returned |
| `FriendController.InvariantImpliesIndexes` | backend/src/models/friend.model.js:40-44 | under the invariant both unique indexes hold, so neither ever fires in a sequential run |
| `FriendController.Send` | backend/src/controllers/friend.controller.js:35-77 | success happens exactly when the receiver is present, is not the caller, and neither a friendship nor a request links the two in either direction. Then the reply is 201 with "Friend request sent successfully", and exactly one request caller -> receiver is appended. It has the store's next id and the schema's default status pending (friend.model.js:18). Under the invariant that id is fresh. Friendships and other requests are unchanged. Any error leaves the store unchanged |
| `FriendController.SendRejections` | backend/src/controllers/friend.controller.js:38-68 | gives each error exactly the condition that triggers it, in the handler's guard order: missing receiver, self, existing friendship, existing request |
| `FriendController.SendReplies` | backend/src/controllers/friend.controller.js:38-77 | the request handler replies 201 exactly on success and 400 exactly on failure. Each failed guard gives its own message: missing receiver, self request, already friends, request exists |
| `FriendController.InvariantExcludesReversedPairs` | backend/src/controllers/friend.controller.js:47-64 | the pairs a -> b with b -> a, and (a, b) with (b, a), which the ordered-pair indexes let through, break the controller's one-per-unordered-pair invariant; the controller's two-orientation queries, not the indexes, exclude them |
| `FriendController.AnyRequestBlocksResend` | backend/src/controllers/friend.controller.js:58-68 | a request of any status between two users, a declined one included, makes a new request fail in both directions and leaves the store unchanged |
| `FriendController.FriendshipImpliesRequest` | backend/src/controllers/friend.controller.js:46-68 | under the invariant a friendship in either orientation comes with a request between the same users |
| `FriendController.SendPreservesInvariant` | backend/src/controllers/friend.controller.js:42-75 | sending keeps the invariant: one request per unordered pair, no self request or self friendship, friendships matching accepted requests one to one |
| `FriendController.PendingRequests` | backend/src/controllers/friend.controller.js:88-91 | contains exactly the requests addressed to the caller whose status is pending |
| `FriendController.GetFriendRequests` | backend/src/controllers/friend.controller.js:84-93 | replies 200 with exactly the pending requests addressed to the caller |
| `FriendController.FindPendingFrom` | backend/src/controllers/friend.controller.js:109-113 | finds the first position from k on whose request has the id, is addressed to the caller and is pending; finds nothing only when no such request lies in that range |
| `FriendController.FindPending` | backend/src/controllers/friend.controller.js:109-117 | finds a matching request, or finds nothing exactly when no request of the store matches |
| `FriendController.Decision` | backend/src/controllers/friend.controller.js:119 | the new status is accepted exactly when the action is "accept"; every other action declines |
| `FriendController.Respond` | backend/src/controllers/friend.controller.js:102-131 | both fields are required (400). With no pending request of that id addressed to the caller, the reply is 404. Errors change nothing. On success the reply is 200, exactly that request's status becomes the action's decision, and the friendship (sender, receiver) is appended exactly when the action is "accept" |
| `FriendController.RespondReplies` | backend/src/controllers/friend.controller.js:105-117 | the answer handler replies 400 with "Request ID and action are required" exactly when a field is missing. It replies 404 with "Friend request not found" exactly when the fields are present but no pending request with the id is addressed to the caller. It replies 200 exactly on success |
| `FriendController.RespondKeepsRequests` | backend/src/controllers/friend.controller.js:119-129 | answering removes no request, changes no id, sender or receiver, and removes no friendship |
| `FriendController.RespondTwiceFails` | backend/src/controllers/friend.controller.js:109-120 | under the invariant, answering a request that was already answered fails with 404 and changes nothing |
| `FriendController.RespondMessageNamesNewStatus` | backend/src/controllers/friend.controller.js:119-131 | the success message names the status the answered request now has (the corrected message, see Findings) |
| `FriendController.DeclineMessageMisspelled` | backend/src/controllers/friend.controller.js:131 | the handler's message agrees with the status for "accept" but reads "declineed" for "decline" |
| `FriendController.NoFriendshipForPending` | backend/src/controllers/friend.controller.js:122-129 | under the invariant no friendship joins the users of a pending request, so accepting never creates a second friendship for the pair |
| `FriendController.RespondPreservesInvariant` | backend/src/controllers/friend.controller.js:105-129 | answering keeps the invariant |
| `FriendController.Other` | backend/src/controllers/friend.controller.js:150-154 | the extracted user and the caller are the two endpoints of the friendship |
| `FriendController.Involving` | backend/src/controllers/friend.controller.js:142-147 | contains exactly the friendships with the caller as user1 or as user2 |
| `FriendController.FriendsOf` | backend/src/controllers/friend.controller.js:150-154 | one entry per friendship containing the caller; a user is listed exactly when some such friendship has them as its other endpoint |
| `FriendController.FriendsDistinct` | backend/src/controllers/friend.controller.js:138-156 | under the invariant the friends list holds no duplicate and never the caller |
| `FriendController.FriendsSymmetric` | backend/src/controllers/friend.controller.js:142-154 | under the invariant u is listed as a friend of v exactly when v is listed as a friend of u |
| `FriendController.FriendsAreAcceptedRequests` | backend/src/controllers/friend.controller.js:142-154 | under the invariant the friends of a user are exactly the users an accepted request links them with, in either direction |
| `FriendController.AcceptMakesFriends` | backend/src/controllers/friend.controller.js:123-129 | after the caller accepts a request, its sender is in the caller's friends list |
| `FriendController.FriendStore.SendFriendRequest` | backend/src/controllers/friend.controller.js:33-82 | the in-place handler keeps the invariant, and its new fields and reply are those of `Send` |
| `FriendController.FriendStore.RespondToFriendRequest` | backend/src/controllers/friend.controller.js:100-136 | the in-place handler sets the status field of the found request and appends the friendship on accept. It keeps the invariant, and its new fields and reply are those of `Respond` |
| `MessageController.SidebarUsers` | backend/src/controllers/message.controller.js:8-26 | lists exactly the other endpoints of the caller's friendships, one per friendship, as the list-friends handler does |
| `MessageController.Conversation` | backend/src/controllers/message.controller.js:38-45 | contains exactly the messages from me to other or from other to me |
| `MessageController.ConversationSymmetric` | backend/src/controllers/message.controller.js:38-43 | swapping the two users gives the same conversation, in the same order |
| `MessageController.ConversationAppend` | backend/src/controllers/message.controller.js:38-43 | storing a message appends it to its own users' conversation and leaves every other conversation unchanged |
| `MessageController.SentMessageVisible` | backend/src/controllers/message.controller.js:64-71 | after a message is stored, both of its users see it in their conversation |
| `MessageController.ImageField` | backend/src/controllers/message.controller.js:58-62 | the image URL is set exactly when an image was supplied, and it is the upload's URL |
| `MessageController.Delivery` | backend/src/controllers/message.controller.js:74-78 | the presence lookup of the receiver decides delivery: at most one event is emitted, and one is emitted exactly when the receiver has a registered connection. It is a newMessage event carrying the message, sent on the connection the registry holds for the receiver |
| `MessageController.MessageStore.SendMessage` | backend/src/controllers/message.controller.js:52-80 | replies 201. Exactly one message (caller, path id, given text, image URL exactly when an image was sent) with a fresh id is appended. The outbox grows by the delivery to the receiver's connection only, or by nothing when the receiver is offline. The conversation of sender and receiver gains the new message |

## Left out

- Database mechanics: `populate`, `select`, timestamps, and enforcement of the indexes by the
  database. Also the catch-all 500 replies on database failure, including cast errors for a
  malformed id. A failed `save` between the status update and the friendship insert of
  `respondToFriendRequest` is left out too. The model is sequential, so both saves happen.
- Concurrency: the race between two concurrent `sendFriendRequest` calls, which only the
  unique index stops. The handlers run one at a time here.
- Regular expressions: the search match is the parameter `matches`. The regex engine and its
  case folding are not modelled.
- Object ids: request and message ids come from a counter in the store. A request id in a
  body is an `Option<RequestId>` (absent or a valid id). Body values of non-string JSON types
  are not modelled.
- Result order: none of the queries sorts (friend.controller.js:14-24, 88-91, 142-147;
  message.controller.js:38-43), and the database promises no order without a sort. The model
  takes results in insertion order. So which 10 hits the search keeps
  (`SearchReturnsFirstHits`), a new message landing at the end of its conversation
  (`ConversationAppend`, `SentMessageVisible`) and the order of every returned list are the
  model's choice, not a promise of the source.
- The image upload is a parameter function. Its failure (a 500) is not modelled.
- The presence registry: its connect and disconnect handling, and the broadcast of the
  online-user list. `lib/socket.js` is not part of this model. Only the lookup the handler
  does is modelled, as a map parameter.
- The message schema (`message.model.js`) is not part of this model. Messages carry exactly
  the fields the handler sets, and `text` is stored as given.
- `user.model.js` is used only for the fields a search returns. Its uniqueness and length
  rules belong to an auth controller that is not part of this model.
- JWT issuing and cookies (`lib/utils.js`), server setup and CORS (`index.js`), route tables
  (`routes/*.js`) and every frontend file.
- `FriendController.Send`: user ids are canonical strings, and the self check compares them as text. In the source the check at friend.controller.js:42 compares the caller's canonical id with the raw body string, while the queries and the insert cast that string to an object id first. A body id that casts to the caller's own id but differs as text (for example the id in upper-case hex) is not modelled. The proved "no self request" invariant therefore assumes canonical ids arrive in the body.
- Reply bodies that are data (the users found, the pending requests, the friends list) are modelled as values. The populated user fields they carry are not modelled.
- `FriendController.Respond`: its success reply carries the corrected message (see Findings), not the handler's `${action}ed` text.
- `FriendController.FriendStore.RespondToFriendRequest`: it replies with the corrected message
  (see Findings), not with the handler's `${action}ed` text.

## Findings

| source | as written | input that shows it | evidently intended | confidence | as-written member | corrected member |
|---|---|---|---|---|---|---|
| backend/src/controllers/friend.controller.js:131 | the success message appends "ed" to the action | action "decline" gives "Friend request declineed successfully". Any other action, e.g. "ignore", declines the request but reports "ignoreed" | a message naming the new status: "Friend request declined successfully" | not executed; the text follows from the template | `FriendController.DeclineMessageMisspelled` (about `AsWrittenRespondMessage`) | `FriendController.RespondMessageNamesNewStatus` (about `RespondMessage`) |
