/** The message handlers: the sidebar's friend list, the conversation between two
    users, and sending a message. A message is stored first; it is then pushed to
    the receiver's real-time connection only when the presence registry knows one. */
module MessageController {
  import opened Common
  import opened FriendModel
  import FriendController

  /** A real-time connection id as the presence registry stores it. */
  type SocketId = s: string | s != "" witness "s"

  type MessageId = nat

  /** A stored message. `text` is stored as the body gave it; `image` is the
      uploaded image's URL, absent when no image was sent. */
  datatype Message = Message(id: MessageId, senderId: UserId, receiverId: UserId, text: Option<string>, image: Option<string>)

  /** One real-time event sent on one connection. */
  datatype Emission = Emission(socket: SocketId, event: string, payload: Message)

  const NewMessageEvent: string := "newMessage"

  // ---------------------------------------------------------------------------
  // getUsersForSidebar
  // ---------------------------------------------------------------------------

  /** The sidebar handler performs the same friendship query and the same
      other-endpoint extraction as the list-friends handler. */
  function SidebarUsers(fs: seq<Friendship>, me: UserId): (out: seq<UserId>)
    ensures |out| == |FriendController.Involving(fs, me)|
    ensures forall u :: u in out <==>
              exists f :: f in fs && FriendController.Involves(f, me) && FriendController.Other(f, me) == u
  {
    FriendController.FriendsOf(fs, me)
  }

  // ---------------------------------------------------------------------------
  // getMessages
  // ---------------------------------------------------------------------------

  /** Message m goes from a to b or from b to a. */
  predicate Between(m: Message, a: UserId, b: UserId)
  {
    (m.senderId == a && m.receiverId == b) || (m.senderId == b && m.receiverId == a)
  }

  /** The conversation handler: every message between `me` and `other`, in either
      direction, in collection order. */
  function Conversation(ms: seq<Message>, me: UserId, other: UserId): (out: seq<Message>)
    ensures forall m :: m in out <==> m in ms && Between(m, me, other)
    ensures |out| <= |ms|
  {
    if ms == [] then []
    else (if Between(ms[0], me, other) then [ms[0]] else []) + Conversation(ms[1..], me, other)
  }

  /** Swapping the two users yields the same conversation, in the same order. */
  lemma {:induction false} ConversationSymmetric(ms: seq<Message>, a: UserId, b: UserId)
    ensures Conversation(ms, a, b) == Conversation(ms, b, a)
  {
    if ms != [] {
      ConversationSymmetric(ms[1..], a, b);
    }
  }

  /** Storing a message extends the conversation of its two users by that message
      and leaves every other conversation as it was. */
  lemma {:induction false} ConversationAppend(ms: seq<Message>, m: Message, a: UserId, b: UserId)
    ensures Conversation(ms + [m], a, b) == Conversation(ms, a, b) + (if Between(m, a, b) then [m] else [])
    decreases |ms|
  {
    if ms == [] {
      assert [m][1..] == [];
    } else {
      assert (ms + [m])[1..] == ms[1..] + [m];
      ConversationAppend(ms[1..], m, a, b);
    }
  }

  /** After a message is stored, both of its users see it in their conversation. */
  lemma SentMessageVisible(ms: seq<Message>, m: Message)
    ensures m in Conversation(ms + [m], m.senderId, m.receiverId)
    ensures m in Conversation(ms + [m], m.receiverId, m.senderId)
    ensures Conversation(ms + [m], m.senderId, m.receiverId) == Conversation(ms, m.senderId, m.receiverId) + [m]
  {
    ConversationAppend(ms, m, m.senderId, m.receiverId);
  }

  // ---------------------------------------------------------------------------
  // sendMessage
  // ---------------------------------------------------------------------------

  /** The image field of a new message: the upload's URL when an image was sent.
      `upload` stands for the image host's upload call. */
  function ImageField(image: Option<string>, upload: string -> string): (url: Option<string>)
    ensures url.Some? <==> Present(image)
    ensures url.Some? ==> url.value == upload(image.value)
  {
    if Present(image) then Some(upload(image.value)) else None
  }

  /** The presence lookup: the connection registered for a user, if any. */
  function ReceiverSocket(presence: map<UserId, SocketId>, u: UserId): Option<SocketId>
  {
    if u in presence then Some(presence[u]) else None
  }

  /** What sending m emits: one newMessage event on the receiver's connection
      when the receiver is online, nothing otherwise. */
  function Delivery(presence: map<UserId, SocketId>, m: Message): (out: seq<Emission>)
    ensures |out| <= 1
    ensures out != [] <==> m.receiverId in presence
    ensures forall e :: e in out ==> e == Emission(presence[m.receiverId], NewMessageEvent, m)
  {
    match ReceiverSocket(presence, m.receiverId)
    case None => []
    case Some(socket) => [Emission(socket, NewMessageEvent, m)]
  }

  /** The message collection and the events sent so far. */
  class MessageStore {
    var messages: seq<Message>
    var outbox: seq<Emission>
    var nextId: MessageId

    /** Every stored message has an id already handed out, and ids are distinct. */
    ghost predicate Valid()
      reads this
    {
      && (forall m :: m in messages ==> m.id < nextId)
      && (forall i, j :: 0 <= i < j < |messages| ==> messages[i].id != messages[j].id)
    }

    constructor ()
      ensures Valid()
      ensures messages == [] && outbox == [] && nextId == 0
    {
      messages, outbox, nextId := [], [], 0;
    }

    /** sendMessage: upload the image if one was sent, store the message, then
        emit it to the receiver's connection if the presence lookup finds one.
        The reply is 201 whether or not the receiver is online. */
    method SendMessage(me: UserId, receiverId: UserId, text: Option<string>, image: Option<string>,
                       upload: string -> string, presence: map<UserId, SocketId>)
      returns (status: nat, sent: Message)
      requires Valid()
      modifies this
      ensures Valid()
      ensures status == FriendController.CREATED
      ensures sent.senderId == me && sent.receiverId == receiverId && sent.text == text
      ensures sent.image == ImageField(image, upload)
      ensures forall m :: m in old(messages) ==> m.id != sent.id
      ensures messages == old(messages) + [sent]
      ensures outbox == old(outbox) + Delivery(presence, sent)
      ensures Conversation(messages, me, receiverId) == Conversation(old(messages), me, receiverId) + [sent]
    {
      var imageUrl: Option<string> := None;
      if Present(image) {
        imageUrl := Some(upload(image.value));
      }
      sent := Message(nextId, me, receiverId, text, imageUrl);
      SentMessageVisible(messages, sent);
      messages := messages + [sent];
      nextId := nextId + 1;
      var socket := ReceiverSocket(presence, receiverId);
      if socket.Some? {
        outbox := outbox + [Emission(socket.value, NewMessageEvent, sent)];
      }
      status := FriendController.CREATED;
    }
  }
}
