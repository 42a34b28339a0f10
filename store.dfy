/** The MongoDB collections the controllers work on, replaced by an
    in-memory database: users by id, chats and messages as sequences in
    natural (insertion) order. Messages are appended as they are created, so
    sequence order is `createdAt` order. */
module Store {
  import opened Basics

  datatype User = User(username: string, avatar: string, friends: seq<Id>, friendRequests: seq<Id>)

  /** A chat document; `groupAdmin` and `latestMessage` may be unset. A
      one-to-one chat has no group name (the empty string). */
  datatype Chat = Chat(id: Id, isGroupChat: bool, groupName: string, participants: seq<Id>,
                       groupAdmin: Option<Id>, latestMessage: Option<Id>)

  datatype Message = Message(id: Id, sender: Id, chat: Id, content: string, readBy: seq<Id>)

  function ChatIds(chats: seq<Chat>): seq<Id>
  {
    seq(|chats|, i requires 0 <= i < |chats| => chats[i].id)
  }

  function MessageIds(ms: seq<Message>): seq<Id>
  {
    seq(|ms|, i requires 0 <= i < |ms| => ms[i].id)
  }

  /** `Chat.findById(id)`: the position of the chat with that id. */
  function FindChat(chats: seq<Chat>, id: Id): (r: Option<nat>)
    ensures r.Some? ==> r.value < |chats| && chats[r.value].id == id
    ensures r.None? <==> forall i :: 0 <= i < |chats| ==> chats[i].id != id
  {
    var r := IndexOf(ChatIds(chats), id);
    assert forall i :: 0 <= i < |chats| ==> ChatIds(chats)[i] == chats[i].id;
    r
  }

  /** `Message.findById(id)`: the position of the message with that id. */
  function FindMessage(ms: seq<Message>, id: Id): (r: Option<nat>)
    ensures r.Some? ==> r.value < |ms| && ms[r.value].id == id
    ensures r.None? <==> forall i :: 0 <= i < |ms| ==> ms[i].id != id
  {
    var r := IndexOf(MessageIds(ms), id);
    assert forall i :: 0 <= i < |ms| ==> MessageIds(ms)[i] == ms[i].id;
    r
  }

  /** `Message.find({ chat: chatId })`: the chat's messages, oldest first. */
  function ChatMessages(ms: seq<Message>, chatId: Id): (r: seq<Message>)
    ensures |r| <= |ms|
    ensures forall k :: 0 <= k < |r| ==> r[k].chat == chatId
  {
    if ms == [] then []
    else ChatMessages(ms[..|ms| - 1], chatId) + (if ms[|ms| - 1].chat == chatId then [ms[|ms| - 1]] else [])
  }

  /** `Message.findOne({ chat: chatId }).sort({ createdAt: -1 })`: the id of
      the chat's newest message, if it has any. */
  function Newest(ms: seq<Message>, chatId: Id): (r: Option<Id>)
    ensures r.Some? ==> r.value in MessageIds(ms)
  {
    if ms == [] then None
    else
      var n := |ms|;
      var init := ms[..n - 1];
      assert MessageIds(ms) == MessageIds(init) + [ms[n - 1].id];
      assert forall i :: 0 <= i < n - 1 ==> init[i] == ms[i];
      if ms[n - 1].chat == chatId then Some(ms[n - 1].id)
      else Newest(init, chatId)
  }

  /** The newest message of a chat is a stored message of that chat, and no
      later message belongs to the chat. */
  lemma {:induction false} NewestIsLast(ms: seq<Message>, chatId: Id)
    requires Newest(ms, chatId).Some?
    ensures exists k :: 0 <= k < |ms| && ms[k].id == Newest(ms, chatId).value && ms[k].chat == chatId
                        && forall k' :: k < k' < |ms| ==> ms[k'].chat != chatId
  {
    var n := |ms|;
    if ms[n - 1].chat != chatId {
      var init := ms[..n - 1];
      NewestIsLast(init, chatId);
      var k :| 0 <= k < n - 1 && init[k].id == Newest(init, chatId).value && init[k].chat == chatId
               && forall k' :: k < k' < n - 1 ==> init[k'].chat != chatId;
      assert ms[k] == init[k];
      assert forall k' :: k < k' < n ==> ms[k'].chat != chatId by {
        forall k' | k < k' < n ensures ms[k'].chat != chatId {
          if k' < n - 1 { assert ms[k'] == init[k']; }
        }
      }
    }
  }

  /** The group admin, when there is one, is a participant. */
  predicate AdminIsMember(c: Chat)
  {
    c.groupAdmin.Some? ==> c.groupAdmin.value in c.participants
  }

  ghost predicate ChatsValid(chats: seq<Chat>)
  {
    && NoDuplicates(ChatIds(chats))
    && forall c :: c in chats ==> AdminIsMember(c)
  }

  /** Friendship is mutual and only between existing users, and nobody has
      a pending request from themself. */
  ghost predicate UsersValid(users: map<Id, User>)
  {
    && (forall x, y :: x in users && y in users ==> (y in users[x].friends <==> x in users[y].friends))
    && (forall x, y :: x in users && y in users[x].friends ==> y in users)
    && (forall x :: x in users ==> x !in users[x].friendRequests)
  }

  /** Message ids are unique, every message belongs to a stored chat and is
      read by each user at most once, and every chat's `latestMessage` is its
      newest message. */
  ghost predicate MessagesValid(chats: seq<Chat>, ms: seq<Message>)
  {
    && NoDuplicates(MessageIds(ms))
    && (forall m :: m in ms ==> m.chat in ChatIds(chats) && NoDuplicates(m.readBy))
    && (forall c :: c in chats ==> c.latestMessage == Newest(ms, c.id))
  }

  /** Replacing one chat by a record with the same id and `latestMessage`
      (and an admin among its participants) keeps both chat invariants. */
  lemma ChatReplaced(chats: seq<Chat>, ms: seq<Message>, i: nat, c: Chat)
    requires ChatsValid(chats) && MessagesValid(chats, ms)
    requires i < |chats| && c.id == chats[i].id && c.latestMessage == chats[i].latestMessage
    requires AdminIsMember(c)
    ensures ChatIds(chats[i := c]) == ChatIds(chats)
    ensures ChatsValid(chats[i := c]) && MessagesValid(chats[i := c], ms)
  {
    assert ChatIds(chats[i := c]) == ChatIds(chats);
    forall d | d in chats[i := c] ensures d.latestMessage == Newest(ms, d.id) {
      var k :| 0 <= k < |chats| && chats[i := c][k] == d;
      assert k != i ==> d == chats[k];
    }
  }

  /** A chat has no newest message exactly when no stored message belongs
      to it. */
  lemma {:induction false} NewestNone(ms: seq<Message>, chatId: Id)
    ensures Newest(ms, chatId).None? <==> forall m :: m in ms ==> m.chat != chatId
  {
    if ms != [] {
      var init := ms[..|ms| - 1];
      NewestNone(init, chatId);
      assert ms == init + [ms[|ms| - 1]];
    }
  }

  /** Appending a chat with a fresh id, no latest message and its admin
      among its participants keeps both chat invariants. */
  lemma ChatAppended(chats: seq<Chat>, ms: seq<Message>, c: Chat)
    requires ChatsValid(chats) && MessagesValid(chats, ms)
    requires c.id !in ChatIds(chats) && c.latestMessage.None? && AdminIsMember(c)
    ensures ChatsValid(chats + [c]) && MessagesValid(chats + [c], ms)
  {
    assert ChatIds(chats + [c]) == ChatIds(chats) + [c.id];
    NewestNone(ms, c.id);
  }

  /** The mutable state behind all controllers. */
  class Db {
    var users: map<Id, User>
    var chats: seq<Chat>
    var messages: seq<Message>

    ghost predicate Valid()
      reads this
    {
      ChatsValid(chats) && UsersValid(users) && MessagesValid(chats, messages)
    }

    constructor ()
      ensures Valid()
      ensures users == map[] && chats == [] && messages == []
    {
      users := map[];
      chats := [];
      messages := [];
    }
  }
}
